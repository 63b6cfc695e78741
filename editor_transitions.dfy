/**
 * The editing engine as functions on the editor record: cursor movement,
 * clamping, advancing after a write, page scrolling, the area and mode
 * toggles, and the assembly of keystrokes into byte writes. Each function
 * follows one routine of the input module step for step; the `Editor`
 * class runs the same steps on its fields. The lemmas state what the
 * routines guarantee.
 */
module EditorTransitions {
  import opened Bytes
  import opened Chars
  import opened Wrappers
  import opened Utilities
  import opened DisplayStrategies
  import opened EditorRecord

  // ---------------------------------------------------------------------
  // Pending input reset (the strategies' `reset_pending`)

  /** `hex_reset_pending`: drops the pending nibble only. */
  function HexResetPending(v: View): View
  {
    v.(hexPending := -1)
  }

  /** `bin_reset_pending`: drops the pending bits only. */
  function BinResetPending(v: View): View
  {
    v.(binPendingBits := 0, binPendingValue := 0)
  }

  /** `strategy->reset_pending`: the reset of the active display mode. */
  function ResetPending(v: View): View
  {
    match StrategyOf(v.displayMode)
    case HexStrategy => HexResetPending(v)
    case BinStrategy => BinResetPending(v)
  }

  // ---------------------------------------------------------------------
  // Cursor movement

  /** `move_cursor_vertical`. */
  function MoveVertical(v: View, deltaY: int, rowCount: int, pageBytes: nat, size: nat): View
  {
    var bytesPerLine := v.BytesPerLine();
    if deltaY < 0 then
      if v.cursorY > 0 then v.(cursorY := v.cursorY - 1)
      else if v.startOffset >= bytesPerLine then v.(startOffset := v.startOffset - bytesPerLine)
      else v
    else if deltaY > 0 then
      var nextIndex := v.Idx(v.cursorY + 1, v.cursorX);
      if v.cursorY < rowCount - 1 && nextIndex < size then v.(cursorY := v.cursorY + 1)
      else if v.startOffset + pageBytes < size then v.(startOffset := v.startOffset + bytesPerLine)
      else v
    else v
  }

  /** `move_cursor_horizontal`: moves within the row, then drops the active pending input. */
  function MoveHorizontal(v: View, deltaX: int, size: nat): View
  {
    var bytesPerLine := v.BytesPerLine();
    var moved :=
      if deltaX < 0 then
        if v.cursorX > 0 then v.(cursorX := v.cursorX - 1) else v
      else if deltaX > 0 then
        var nextIndex := v.Idx(v.cursorY, v.cursorX + 1);
        if v.cursorX < bytesPerLine - 1 && nextIndex < size then v.(cursorX := v.cursorX + 1) else v
      else v;
    ResetPending(moved)
  }

  /** The number of buffer bytes in the cursor's row. */
  function LineBytes(v: View, size: nat): nat
  {
    var lineStart := v.Idx(v.cursorY, 0);
    var maxPerLine := v.BytesPerLine();
    if lineStart < size then
      if size - lineStart > maxPerLine then maxPerLine else size - lineStart
    else 0
  }

  /** `clamp_cursor`: pulls the column back onto the last byte of the row. */
  function Clamp(v: View, size: nat): View
  {
    var lineBytes := LineBytes(v, size);
    if v.cursorX >= lineBytes then v.(cursorX := if lineBytes == 0 then 0 else lineBytes - 1)
    else v
  }

  /** `editor_move_cursor`: vertical step, horizontal step, clamp. */
  function MoveCursor(v: View, deltaY: int, deltaX: int, rows: nat, size: nat): View
  {
    var pageBytes := rows * v.BytesPerLine();
    Clamp(MoveHorizontal(MoveVertical(v, deltaY, rows, pageBytes, size), deltaX, size), size)
  }

  /** The movement of `advance_cursor`, before the pending reset and the clamp. */
  function AdvanceStep(v: View, rows: nat, size: nat): View
  {
    var bytesPerLine := v.BytesPerLine();
    var nextIndex := v.Idx(v.cursorY, v.cursorX + 1);
    if v.cursorX < bytesPerLine - 1 && nextIndex < size then v.(cursorX := v.cursorX + 1)
    else if nextIndex < size then
      MoveVertical(v.(cursorX := 0), 1, rows, rows * bytesPerLine, size)
    else v
  }

  /** `advance_cursor`: the step after a completed write. */
  function Advance(v: View, rows: nat, size: nat): View
  {
    Clamp(ResetPending(AdvanceStep(v, rows, size)), size)
  }

  /** `editor_scroll`: moves the viewport by `deltaOffset` bytes, then re-validates the cursor. */
  function Scroll(v: View, deltaOffset: int, rows: nat, size: nat): View
  {
    MoveCursor(ScrollStart(v, deltaOffset, rows, size), 0, 0, rows, size)
  }

  /**
   * The first half of `editor_scroll`: the new start offset, at most the
   * last full page when scrolling down and at least 0 when scrolling up.
   */
  function ScrollStart(v: View, deltaOffset: int, rows: nat, size: nat): View
  {
    var page := rows * v.BytesPerLine();
    if deltaOffset > 0 then
      var maxOffset := if size > page then size - page else 0;
      var newOffset := v.startOffset + deltaOffset;
      v.(startOffset := if newOffset > maxOffset then maxOffset else newOffset)
    else if deltaOffset < 0 then
      var absOffset := -deltaOffset;
      if absOffset > v.startOffset then v.(startOffset := 0)
      else v.(startOffset := v.startOffset - absOffset)
    else v
  }

  /** `editor_toggle_area`. */
  function ToggleArea(v: View, size: nat): View
  {
    var area := if v.cursorArea == AreaHex then AreaAscii else AreaHex;
    Clamp(v.(cursorArea := area), size)
  }

  /** `editor_toggle_display_mode`: switches mode keeping the byte under the cursor. */
  function ToggleDisplayMode(v: View, rows: nat): View
  {
    Place(Switched(v), v.Index(), rows)
  }

  /** The record `editor_toggle_display_mode` works on: other mode, no partial input. */
  function Switched(v: View): View
  {
    var mode := if v.displayMode == DisplayHex then DisplayBin else DisplayHex;
    v.(displayMode := mode, hexPending := -1, binPendingBits := 0, binPendingValue := 0)
  }

  /**
   * The second half of `editor_toggle_display_mode`: the viewport moves to
   * the row holding `index` when that byte is off the page, and the cursor
   * goes onto it.
   */
  function Place(s: View, index: nat, rows: nat): View
  {
    var w := s.BytesPerLine();
    var start :=
      if index < s.startOffset || index >= s.startOffset + rows * w
      then (index / w) * w
      else s.startOffset;
    var relative := index - start;
    s.(startOffset := start, cursorY := relative / w, cursorX := relative % w)
  }

  // ---------------------------------------------------------------------
  // Keystroke assembly

  /** A byte write handed to the buffer. */
  datatype Write = Write(index: nat, value: uint8)

  /** What one key does: the new record and the write it issues, if any. */
  datatype Input = Input(view: View, write: Option<Write>)

  /** `handle_ascii`: a printable key is written as its own code. */
  function HandleAscii(v: View, key: int, index: nat, rows: nat, size: nat): Input
  {
    if IsPrint(key) then Input(Advance(v, rows, size), Some(Write(index, key)))
    else Input(v, None)
  }

  /**
   * `handle_hex_input`: the first digit is kept as the pending nibble, the
   * second completes `(pending << 4) | digit`.
   */
  function HandleHexInput(v: View, key: int, index: nat, rows: nat, size: nat): Input
  {
    if !IsXDigit(key) then Input(v, None)
    else
      var value := HexDigitValue(key);
      if v.hexPending < 0 then Input(v.(hexPending := value), None)
      else
        var byte := (v.hexPending * 16 + value) % 256;
        Input(Advance(v.(hexPending := -1), rows, size), Some(Write(index, byte)))
  }

  /** `handle_bin_input`: shifts one bit in; the eighth completes the byte. */
  function HandleBinInput(v: View, key: int, index: nat, rows: nat, size: nat): Input
  {
    if key != '0' as int && key != '1' as int then Input(v, None)
    else
      var value := (v.binPendingValue * 2 + (key - '0' as int)) % 256;
      var bits := v.binPendingBits + 1;
      if bits == 8 then
        Input(Advance(v.(binPendingBits := 0, binPendingValue := 0), rows, size), Some(Write(index, value)))
      else Input(v.(binPendingValue := value, binPendingBits := bits), None)
  }

  /** `editor_handle_char`: dispatches on the area and the display mode. */
  function HandleChar(v: View, key: int, rows: nat, size: nat): Input
  {
    var index := v.Index();
    if v.cursorArea == AreaAscii then HandleAscii(v, key, index, rows, size)
    else if v.displayMode == DisplayHex then HandleHexInput(v, key, index, rows, size)
    else HandleBinInput(v, key, index, rows, size)
  }

  /** Feeds a sequence of keys, collecting the writes in order. */
  function FeedKeys(v: View, keys: seq<int>, rows: nat, size: nat): (View, seq<Write>)
  {
    if keys == [] then (v, [])
    else FeedKey(FeedKeys(v, keys[..|keys| - 1], rows, size), keys[|keys| - 1], rows, size)
  }

  /** One more key after `before`: its record, and its write appended. */
  function FeedKey(before: (View, seq<Write>), key: int, rows: nat, size: nat): (View, seq<Write>)
  {
    var r := HandleChar(before.0, key, rows, size);
    (r.view, before.1 + (if r.write.Some? then [r.write.value] else []))
  }

  /** The key codes of a string. */
  function Codes(s: string): (keys: seq<int>)
    ensures |keys| == |s| && forall i :: 0 <= i < |s| ==> keys[i] == s[i] as int
  {
    seq(|s|, i requires 0 <= i < |s| => s[i] as int)
  }

  // ---------------------------------------------------------------------
  // Index arithmetic

  /** The cursor's row start plus its column is its index; the next row and column are one step on. */
  lemma IndexSteps(v: View)
    ensures v.Idx(v.cursorY, 0) + v.cursorX == v.Index()
    ensures v.Idx(v.cursorY, v.cursorX + 1) == v.Index() + 1
    ensures v.Idx(v.cursorY + 1, v.cursorX) == v.Index() + v.BytesPerLine()
    ensures v.Idx(v.cursorY + 1, 0) == v.Idx(v.cursorY, 0) + v.BytesPerLine()
  {
    MulSucc(v.cursorY, v.BytesPerLine());
  }

  // ---------------------------------------------------------------------
  // Clamping

  /**
   * The cursor's row exists (or the buffer is empty and the cursor is at the
   * origin), though the column may lie past the row's last byte: what the
   * movement steps leave before `clamp_cursor`.
   */
  predicate RowInv(v: View, rows: nat, size: nat)
  {
    && rows >= 1
    && v.cursorX < v.BytesPerLine()
    && v.cursorY < rows
    && (size == 0 ==> v.startOffset == 0 && v.cursorY == 0)
    && (size > 0 ==> v.Idx(v.cursorY, 0) < size)
  }

  /**
   * Clamping moves only the column: onto the row's last byte when it was
   * past it, and not at all when it was on a byte. Afterwards the cursor is
   * on a byte.
   */
  lemma ClampSpec(v: View, rows: nat, size: nat)
    requires RowInv(v, rows, size)
    ensures Clamp(v, size) == v.(cursorX := Clamp(v, size).cursorX)
    ensures CursorInv(Clamp(v, size), rows, size)
    ensures Clamp(v, size).cursorX <= v.cursorX
    ensures v.Index() < size ==> Clamp(v, size) == v
    ensures v.Index() >= size && size > 0 ==> Clamp(v, size).Index() == size - 1
  {
    IndexSteps(v);
    var c := Clamp(v, size);
    IndexSteps(c);
  }

  lemma InvIsRowInv(v: View, rows: nat, size: nat)
    requires Inv(v, rows, size)
    ensures RowInv(v, rows, size)
  {
    IndexSteps(v);
  }

  // ---------------------------------------------------------------------
  // Pending input

  /** No partial input of either kind. */
  predicate NoPending(v: View)
  {
    v.hexPending == -1 && v.binPendingBits == 0 && v.binPendingValue == 0
  }

  /**
   * Resetting the active mode's pending input leaves none at all, because
   * the inactive mode never holds any; the cursor and viewport stay.
   */
  lemma ResetPendingSpec(v: View)
    requires PendingInv(v)
    ensures NoPending(ResetPending(v)) && PendingInv(ResetPending(v))
    ensures ResetPending(v) == v.(hexPending := -1, binPendingBits := 0, binPendingValue := 0)
  {
  }

  // ---------------------------------------------------------------------
  // Advancing after a write

  /** Stepping right within the row. */
  lemma AdvanceInRow(v: View, rows: nat, size: nat)
    requires Inv(v, rows, size)
    requires v.cursorX < v.BytesPerLine() - 1 && v.Index() + 1 < size
    ensures AdvanceStep(v, rows, size) == v.(cursorX := v.cursorX + 1)
    ensures RowInv(AdvanceStep(v, rows, size), rows, size)
    ensures AdvanceStep(v, rows, size).Index() == v.Index() + 1
  {
    IndexSteps(v);
    var w := v.(cursorX := v.cursorX + 1);
    IndexSteps(w);
  }

  /** Wrapping from the last column to the start of the next row, scrolling at the bottom. */
  lemma AdvanceWrap(v: View, rows: nat, size: nat)
    requires Inv(v, rows, size)
    requires v.cursorX == v.BytesPerLine() - 1 && v.Index() + 1 < size
    ensures RowInv(AdvanceStep(v, rows, size), rows, size)
    ensures AdvanceStep(v, rows, size).Index() == v.Index() + 1
    ensures AdvanceStep(v, rows, size).cursorX == 0
    ensures if v.cursorY < rows - 1
            then AdvanceStep(v, rows, size) == v.(cursorX := 0, cursorY := v.cursorY + 1)
            else AdvanceStep(v, rows, size) == v.(cursorX := 0, startOffset := v.startOffset + v.BytesPerLine())
  {
    var bytesPerLine := v.BytesPerLine();
    IndexSteps(v);
    var w := v.(cursorX := 0);
    IndexSteps(w);
    assert w.Idx(w.cursorY + 1, 0) == v.Index() + 1;
    var stepped := AdvanceStep(v, rows, size);
    if v.cursorY < rows - 1 {
      assert stepped == w.(cursorY := w.cursorY + 1);
      assert stepped.Idx(stepped.cursorY, 0) == v.Index() + 1;
    } else {
      MulSucc(v.cursorY, bytesPerLine);
      assert v.startOffset + rows * bytesPerLine == v.Index() + 1;
      assert stepped == w.(startOffset := w.startOffset + bytesPerLine);
      IndexSteps(stepped);
    }
  }

  /**
   * After a completed write the cursor moves to the next byte of the buffer
   * when there is one, wrapping to the next row and scrolling by one row at
   * the bottom of the page, and otherwise stays on the last byte. The mode
   * and area stay, no partial input survives, and the invariant holds.
   */
  lemma AdvanceSpec(v: View, rows: nat, size: nat)
    requires Inv(v, rows, size)
    ensures Inv(Advance(v, rows, size), rows, size)
    ensures Advance(v, rows, size).Index() == if v.Index() + 1 < size then v.Index() + 1 else v.Index()
    ensures NoPending(Advance(v, rows, size))
    ensures Advance(v, rows, size).displayMode == v.displayMode
    ensures Advance(v, rows, size).cursorArea == v.cursorArea
  {
    IndexSteps(v);
    var stepped := AdvanceStep(v, rows, size);
    if v.cursorX < v.BytesPerLine() - 1 && v.Index() + 1 < size {
      AdvanceInRow(v, rows, size);
    } else if v.Index() + 1 < size {
      AdvanceWrap(v, rows, size);
    } else {
      assert stepped == v;
      InvIsRowInv(v, rows, size);
    }
    ResetPendingSpec(stepped);
    var r := ResetPending(stepped);
    ClampSpec(r, rows, size);
  }

  // ---------------------------------------------------------------------
  // Cursor movement

  /**
   * One row up: the cursor moves up a row, or at the top row the viewport
   * moves up a row; either way the index drops by a row's width. At the top
   * row of a viewport that starts within the first row nothing moves.
   */
  lemma MoveUpStep(v: View, deltaY: int, rows: nat, size: nat)
    requires Inv(v, rows, size) && deltaY < 0
    ensures var m := MoveVertical(v, deltaY, rows, rows * v.BytesPerLine(), size);
      && RowInv(m, rows, size)
      && m.Index() == (if v.cursorY > 0 || v.startOffset >= v.BytesPerLine() then v.Index() - v.BytesPerLine() else v.Index())
      && (size > 0 ==> m.Index() < size)
      && m == v.(startOffset := m.startOffset, cursorY := m.cursorY)
      && (m.startOffset == v.startOffset || (v.cursorY == 0 && m.cursorY == 0 && m.startOffset + v.BytesPerLine() == v.startOffset))
  {
    var m := MoveVertical(v, deltaY, rows, rows * v.BytesPerLine(), size);
    IndexSteps(v);
    if v.cursorY > 0 {
      var u := v.(cursorY := v.cursorY - 1);
      IndexSteps(u);
      assert m == u;
    } else if v.startOffset >= v.BytesPerLine() {
      var u := v.(startOffset := v.startOffset - v.BytesPerLine());
      IndexSteps(u);
      assert m == u;
    }
  }

  /**
   * One row down: the cursor moves down a row when that row has a byte in
   * its column, or at the bottom row the viewport moves down a row when
   * bytes follow the page; either way the index grows by a row's width.
   * Only the scroll can land past the last byte, on a row that does exist.
   */
  lemma MoveDownStep(v: View, deltaY: int, rows: nat, size: nat)
    requires Inv(v, rows, size) && deltaY > 0
    ensures var m := MoveVertical(v, deltaY, rows, rows * v.BytesPerLine(), size);
      var moves := v.Index() + v.BytesPerLine() < size
                   || (v.cursorY == rows - 1 && v.startOffset + rows * v.BytesPerLine() < size);
      && RowInv(m, rows, size)
      && m.Index() == (if moves then v.Index() + v.BytesPerLine() else v.Index())
      && (size > 0 && m.Index() >= size ==> v.cursorY == rows - 1 && moves)
      && m == v.(startOffset := m.startOffset, cursorY := m.cursorY)
      && (moves ==> m.cursorY == v.cursorY + 1 || m.startOffset == v.startOffset + v.BytesPerLine())
      && (m.startOffset == v.startOffset || (m.cursorY == v.cursorY && m.startOffset == v.startOffset + v.BytesPerLine()))
  {
    var bytesPerLine := v.BytesPerLine();
    var m := MoveVertical(v, deltaY, rows, rows * bytesPerLine, size);
    IndexSteps(v);
    if v.cursorY < rows - 1 && v.Index() + bytesPerLine < size {
      var u := v.(cursorY := v.cursorY + 1);
      IndexSteps(u);
      assert m == u;
    } else if v.startOffset + rows * bytesPerLine < size {
      if v.cursorY < rows - 1 {
        RowsFit(v.cursorY + 1, v.cursorX, rows, bytesPerLine);
        assert false;
      }
      MulSucc(v.cursorY, bytesPerLine);
      var u := v.(startOffset := v.startOffset + bytesPerLine);
      IndexSteps(u);
      assert m == u;
    } else {
      if v.cursorY == rows - 1 {
        MulSucc(v.cursorY, bytesPerLine);
      } else {
        RowsFit(v.cursorY + 1, v.cursorX, rows, bytesPerLine);
      }
      assert m == v;
      InvIsRowInv(v, rows, size);
    }
  }

  /**
   * One column left or right within the row, never past its ends nor past
   * the last byte, followed by the pending reset.
   */
  lemma MoveHorizontalStep(m: View, deltaX: int, rows: nat, size: nat)
    requires RowInv(m, rows, size) && PendingInv(m)
    ensures var h := MoveHorizontal(m, deltaX, size);
      var moves := if deltaX < 0 then m.cursorX > 0
                   else deltaX > 0 && m.cursorX < m.BytesPerLine() - 1 && m.Index() + 1 < size;
      && RowInv(h, rows, size)
      && NoPending(h) && PendingInv(h)
      && h.Index() == (if !moves then m.Index() else if deltaX < 0 then m.Index() - 1 else m.Index() + 1)
      && h == m.(cursorX := h.cursorX, hexPending := -1, binPendingBits := 0, binPendingValue := 0)
  {
    IndexSteps(m);
    var h := MoveHorizontal(m, deltaX, size);
    ResetPendingSpec(m);
    if deltaX < 0 && m.cursorX > 0 {
      var u := m.(cursorX := m.cursorX - 1);
      ResetPendingSpec(u);
      assert h == ResetPending(u);
      IndexSteps(u);
    } else if deltaX > 0 && m.cursorX < m.BytesPerLine() - 1 && m.Index() + 1 < size {
      var u := m.(cursorX := m.cursorX + 1);
      ResetPendingSpec(u);
      assert h == ResetPending(u);
      IndexSteps(u);
    } else {
      assert h == ResetPending(m);
    }
    IndexSteps(h);
  }

  /**
   * `editor_move_cursor` keeps the invariant, leaves no partial input, and
   * keeps the area and the mode.
   */
  lemma MoveCursorKeepsInv(v: View, deltaY: int, deltaX: int, rows: nat, size: nat)
    requires Inv(v, rows, size)
    ensures Inv(MoveCursor(v, deltaY, deltaX, rows, size), rows, size)
    ensures NoPending(MoveCursor(v, deltaY, deltaX, rows, size))
    ensures MoveCursor(v, deltaY, deltaX, rows, size).displayMode == v.displayMode
    ensures MoveCursor(v, deltaY, deltaX, rows, size).cursorArea == v.cursorArea
  {
    var m := MoveVertical(v, deltaY, rows, rows * v.BytesPerLine(), size);
    if deltaY < 0 {
      MoveUpStep(v, deltaY, rows, size);
    } else if deltaY > 0 {
      MoveDownStep(v, deltaY, rows, size);
    } else {
      assert m == v;
      InvIsRowInv(v, rows, size);
    }
    MoveHorizontalStep(m, deltaX, rows, size);
    ClampSpec(MoveHorizontal(m, deltaX, size), rows, size);
  }

  /** Left and right arrows: one byte back or on within the row, or no move at its ends. */
  lemma MoveCursorHorizontal(v: View, deltaX: int, rows: nat, size: nat)
    requires Inv(v, rows, size)
    ensures MoveCursor(v, 0, deltaX, rows, size).Index() ==
      if deltaX < 0 && v.cursorX > 0 then v.Index() - 1
      else if deltaX > 0 && v.cursorX < v.BytesPerLine() - 1 && v.Index() + 1 < size then v.Index() + 1
      else v.Index()
    ensures MoveCursor(v, 0, deltaX, rows, size).cursorY == v.cursorY
    ensures MoveCursor(v, 0, deltaX, rows, size).startOffset == v.startOffset
  {
    var m := MoveVertical(v, 0, rows, rows * v.BytesPerLine(), size);
    assert m == v;
    InvIsRowInv(v, rows, size);
    MoveHorizontalStep(v, deltaX, rows, size);
    var h := MoveHorizontal(v, deltaX, size);
    IndexSteps(v);
    assert size > 0 ==> h.Index() < size;
    ClampSpec(h, rows, size);
  }

  /**
   * Up arrow: one row back, scrolling at the top row, so the index drops by
   * a row's width; nothing moves at the top row of a viewport that starts
   * within the first row.
   */
  lemma MoveCursorUp(v: View, rows: nat, size: nat)
    requires Inv(v, rows, size)
    ensures MoveCursor(v, -1, 0, rows, size).Index() ==
      if v.cursorY > 0 || v.startOffset >= v.BytesPerLine() then v.Index() - v.BytesPerLine() else v.Index()
    ensures MoveCursor(v, -1, 0, rows, size).cursorX == v.cursorX
  {
    MoveUpStep(v, -1, rows, size);
    var m := MoveVertical(v, -1, rows, rows * v.BytesPerLine(), size);
    MoveHorizontalStep(m, 0, rows, size);
    ClampSpec(MoveHorizontal(m, 0, size), rows, size);
  }

  /**
   * Down arrow: one row on, scrolling at the bottom row while bytes follow
   * the page; when the row below ends before the cursor's column the cursor
   * lands on the last byte.
   */
  lemma MoveCursorDown(v: View, rows: nat, size: nat)
    requires Inv(v, rows, size)
    ensures MoveCursor(v, 1, 0, rows, size).Index() ==
      if v.Index() + v.BytesPerLine() < size then v.Index() + v.BytesPerLine()
      else if v.cursorY == rows - 1 && v.startOffset + rows * v.BytesPerLine() < size then size - 1
      else v.Index()
  {
    MoveDownStep(v, 1, rows, size);
    var m := MoveVertical(v, 1, rows, rows * v.BytesPerLine(), size);
    MoveHorizontalStep(m, 0, rows, size);
    ClampSpec(MoveHorizontal(m, 0, size), rows, size);
  }

  /** Up undoes down wherever down moved by a whole row. */
  lemma UpUndoesDown(v: View, rows: nat, size: nat)
    requires Inv(v, rows, size) && v.Index() + v.BytesPerLine() < size
    ensures MoveCursor(MoveCursor(v, 1, 0, rows, size), -1, 0, rows, size).Index() == v.Index()
  {
    var d := MoveCursor(v, 1, 0, rows, size);
    DownLeavesRowAbove(v, rows, size);
    MoveCursorKeepsInv(v, 1, 0, rows, size);
    MoveCursorUp(d, rows, size);
  }

  /** After a down move by a whole row there is a row above the cursor to go back to. */
  lemma DownLeavesRowAbove(v: View, rows: nat, size: nat)
    requires Inv(v, rows, size) && v.Index() + v.BytesPerLine() < size
    ensures var d := MoveCursor(v, 1, 0, rows, size);
      && d.Index() == v.Index() + v.BytesPerLine()
      && d.BytesPerLine() == v.BytesPerLine()
      && (d.cursorY > 0 || d.startOffset >= d.BytesPerLine())
  {
    MoveCursorDown(v, rows, size);
    MoveDownStep(v, 1, rows, size);
    var m := MoveVertical(v, 1, rows, rows * v.BytesPerLine(), size);
    MoveHorizontalStep(m, 0, rows, size);
    ClampSpec(MoveHorizontal(m, 0, size), rows, size);
  }

  /** Right undoes left wherever left moved. */
  lemma RightUndoesLeft(v: View, rows: nat, size: nat)
    requires Inv(v, rows, size) && v.cursorX > 0
    ensures MoveCursor(MoveCursor(v, 0, -1, rows, size), 0, 1, rows, size).Index() == v.Index()
  {
    MoveCursorHorizontal(v, -1, rows, size);
    MoveCursorKeepsInv(v, 0, -1, rows, size);
    var l := MoveCursor(v, 0, -1, rows, size);
    IndexSteps(v);
    IndexSteps(l);
    MoveCursorHorizontal(l, 1, rows, size);
  }

  // ---------------------------------------------------------------------
  // Scrolling

  /**
   * Where scrolling puts the viewport: scrolling down never passes the
   * offset that shows the last full page, and moves by the full distance
   * when the buffer has room for it; scrolling up never passes the start.
   * A viewport already past the last full page is pulled back to it, so a
   * page down can move the view backwards. The mode stays, and with it the
   * row width.
   */
  lemma ScrollOffset(v: View, deltaOffset: int, rows: nat, size: nat)
    ensures var r := Scroll(v, deltaOffset, rows, size);
      var page := rows * v.BytesPerLine();
      && r.displayMode == v.displayMode
      && (deltaOffset > 0 ==> r.startOffset == 0 || r.startOffset + page <= size)
      && (deltaOffset > 0 ==>
            var maxOffset := if size > page then size - page else 0;
            r.startOffset == if v.startOffset + deltaOffset > maxOffset then maxOffset else v.startOffset + deltaOffset)
      && (deltaOffset > 0 && v.startOffset + deltaOffset + page <= size ==> r.startOffset == v.startOffset + deltaOffset)
      && (deltaOffset < 0 ==> r.startOffset == if v.startOffset >= -deltaOffset then v.startOffset + deltaOffset else 0)
      && (deltaOffset == 0 ==> r.startOffset == v.startOffset)
  {
  }

  /**
   * A page down from a viewport past the last full page moves it back: a
   * one-row hex view of a 20-byte buffer starting at byte 16, which an
   * advance past byte 15 reaches, goes back to byte 4.
   */
  lemma PageDownMovesBack()
    ensures var v := View(16, 0, 0, AreaHex, -1, 0, 0, DisplayHex);
      && Inv(v, 1, 20)
      && Scroll(v, 16, 1, 20).startOffset == 4
  {
    var v := View(16, 0, 0, AreaHex, -1, 0, 0, DisplayHex);
    ScrollOffset(v, 16, 1, 20);
  }

  /**
   * Scrolling keeps the invariant and the cursor's row on screen, leaves no
   * partial input, and keeps the mode and area.
   */
  lemma ScrollKeepsInv(v: View, deltaOffset: int, rows: nat, size: nat)
    requires Inv(v, rows, size)
    ensures var r := Scroll(v, deltaOffset, rows, size);
      && Inv(r, rows, size) && NoPending(r)
      && r.cursorY == v.cursorY && r.cursorX <= v.cursorX
      && r.displayMode == v.displayMode && r.cursorArea == v.cursorArea
  {
    var page := rows * v.BytesPerLine();
    var scrolled := ScrollStart(v, deltaOffset, rows, size);
    IndexSteps(v);
    IndexSteps(scrolled);
    assert RowInv(scrolled, rows, size) by {
      if scrolled.startOffset > v.startOffset {
        RowsFit(v.cursorY, 0, rows, v.BytesPerLine());
      }
    }
    var m := MoveVertical(scrolled, 0, rows, page, size);
    assert m == scrolled;
    MoveHorizontalStep(scrolled, 0, rows, size);
    ClampSpec(MoveHorizontal(scrolled, 0, size), rows, size);
  }

  /**
   * Page down then page up returns to the same viewport when the page down
   * did not stop at the end of the buffer.
   */
  lemma PageUpUndoesPageDown(v: View, rows: nat, size: nat)
    requires v.startOffset + 2 * (rows * v.BytesPerLine()) <= size
    ensures var page := rows * v.BytesPerLine();
      Scroll(Scroll(v, page, rows, size), -page, rows, size).startOffset == v.startOffset
  {
    var page := rows * v.BytesPerLine();
    if page > 0 {
      ScrollOffset(v, page, rows, size);
      var d := Scroll(v, page, rows, size);
      assert d.BytesPerLine() == v.BytesPerLine();
      ScrollOffset(d, -page, rows, size);
    }
  }

  // ---------------------------------------------------------------------
  // Toggles

  /**
   * `editor_toggle_area` only switches the area: with the cursor on a byte
   * the clamp has nothing to do, so position, mode and pending input stay.
   * Toggling twice restores the record.
   */
  lemma ToggleAreaSpec(v: View, rows: nat, size: nat)
    requires Inv(v, rows, size)
    ensures ToggleArea(v, size) == v.(cursorArea := if v.cursorArea == AreaHex then AreaAscii else AreaHex)
    ensures Inv(ToggleArea(v, size), rows, size)
    ensures ToggleArea(ToggleArea(v, size), size) == v
  {
    var a := v.(cursorArea := if v.cursorArea == AreaHex then AreaAscii else AreaHex);
    IndexSteps(v);
    IndexSteps(a);
    ClampSpec(a, rows, size);
    ClampSpec(v, rows, size);
  }

  /** Division by a row width splits an index into a row and a column of that page. */
  lemma DivideIntoRows(relative: nat, w: nat, rows: nat)
    requires w >= 1 && relative < rows * w
    ensures relative / w < rows && relative % w < w
    ensures (relative / w) * w + relative % w == relative
  {
    if relative / w >= rows {
      assert (relative / w) * w >= rows * w by {
        MulMono(rows, relative / w, w);
      }
      assert false;
    }
  }

  /** The byte is on the page: the viewport stays and the cursor lands on the byte. */
  lemma PlaceInPage(s: View, index: nat, rows: nat)
    requires s.startOffset <= index < s.startOffset + rows * s.BytesPerLine()
    ensures Place(s, index, rows).startOffset == s.startOffset
    ensures Place(s, index, rows).Index() == index
    ensures Place(s, index, rows).cursorY < rows
    ensures Place(s, index, rows).cursorX < s.BytesPerLine()
  {
    var r := Place(s, index, rows);
    var w := s.BytesPerLine();
    var relative := index - s.startOffset;
    assert r == s.(cursorY := relative / w, cursorX := relative % w);
    DivideIntoRows(relative, w, rows);
    IndexSteps(r);
  }

  /** The byte is below the page: the viewport starts at the byte's row, now the top row. */
  lemma PlaceRealign(s: View, index: nat, rows: nat)
    requires rows >= 1 && index >= s.startOffset + rows * s.BytesPerLine()
    ensures Place(s, index, rows).startOffset != s.startOffset
    ensures Place(s, index, rows).startOffset % s.BytesPerLine() == 0
    ensures Place(s, index, rows).Index() == index
    ensures Place(s, index, rows).cursorY == 0
    ensures Place(s, index, rows).cursorX < s.BytesPerLine()
  {
    var r := Place(s, index, rows);
    var w := s.BytesPerLine();
    var start := (index / w) * w;
    assert r == s.(startOffset := start, cursorY := (index - start) / w, cursorX := (index - start) % w);
    assert index - start == index % w;
    DivideIntoRows(index % w, w, 1);
    MulMono(1, rows, w);
    IndexSteps(r);
  }

  /**
   * `editor_toggle_display_mode` keeps the cursor on the same byte while the
   * row width changes. The viewport stays where it was when that byte is on
   * the new page, and otherwise starts at the row holding the byte, which
   * becomes the top row. Partial input of both kinds is dropped, the area
   * stays, and the invariant holds.
   */
  lemma ToggleDisplayModeSpec(v: View, rows: nat, size: nat)
    requires Inv(v, rows, size)
    ensures var r := ToggleDisplayMode(v, rows);
      && r.Index() == v.Index()
      && r.displayMode != v.displayMode
      && r.cursorArea == v.cursorArea
      && NoPending(r)
      && Inv(r, rows, size)
      && (v.Index() < v.startOffset + rows * r.BytesPerLine() <==> r.startOffset == v.startOffset)
      && (r.startOffset != v.startOffset ==> r.cursorY == 0 && r.startOffset % r.BytesPerLine() == 0)
  {
    var sw := Switched(v);
    var r := Place(sw, v.Index(), rows);
    var w := sw.BytesPerLine();
    assert r.BytesPerLine() == w;
    IndexSteps(v);
    MulMono(1, rows, w);
    if v.Index() < v.startOffset + rows * w {
      PlaceInPage(sw, v.Index(), rows);
    } else {
      PlaceRealign(sw, v.Index(), rows);
    }
    assert PendingInv(r);
    assert CursorInv(r, rows, size);
  }

  /** Toggling the mode twice restores the mode and the byte under the cursor. */
  lemma ToggleDisplayModeTwice(v: View, rows: nat, size: nat)
    requires Inv(v, rows, size)
    ensures ToggleDisplayMode(ToggleDisplayMode(v, rows), rows).displayMode == v.displayMode
    ensures ToggleDisplayMode(ToggleDisplayMode(v, rows), rows).Index() == v.Index()
  {
    ToggleDisplayModeSpec(v, rows, size);
    ToggleDisplayModeSpec(ToggleDisplayMode(v, rows), rows, size);
  }

  // ---------------------------------------------------------------------
  // Keystrokes

  /** `advance_cursor` discards partial input itself, so discarding it first changes nothing. */
  lemma AdvanceDropsPending(v: View, rows: nat, size: nat)
    ensures v.displayMode == DisplayHex ==> Advance(v.(hexPending := -1), rows, size) == Advance(v, rows, size)
    ensures v.displayMode == DisplayBin ==>
              Advance(v.(binPendingBits := 0, binPendingValue := 0), rows, size) == Advance(v, rows, size)
  {
    var h := v.(hexPending := -1);
    var b := v.(binPendingBits := 0, binPendingValue := 0);
    var bpl := v.BytesPerLine();
    assert MoveVertical(h.(cursorX := 0), 1, rows, rows * bpl, size)
        == MoveVertical(v.(cursorX := 0), 1, rows, rows * bpl, size).(hexPending := -1);
    assert MoveVertical(b.(cursorX := 0), 1, rows, rows * bpl, size)
        == MoveVertical(v.(cursorX := 0), 1, rows, rows * bpl, size).(binPendingBits := 0, binPendingValue := 0);
    assert AdvanceStep(h, rows, size) == AdvanceStep(v, rows, size).(hexPending := -1);
    assert AdvanceStep(b, rows, size) == AdvanceStep(v, rows, size).(binPendingBits := 0, binPendingValue := 0);
  }

  /** The hex handler keeps the invariant; only the second digit writes, then advances. */
  lemma HexInputKeepsInv(v: View, key: int, rows: nat, size: nat)
    requires Inv(v, rows, size) && v.displayMode == DisplayHex
    ensures var r := HandleHexInput(v, key, v.Index(), rows, size);
      && Inv(r.view, rows, size)
      && r.view.cursorArea == v.cursorArea && r.view.displayMode == v.displayMode
      && (r.write.Some? ==> r.write.value.index == v.Index() && r.view == Advance(v, rows, size))
      && (r.write.None? ==> r.view == v.(hexPending := r.view.hexPending))
  {
    if IsXDigit(key) && v.hexPending >= 0 {
      AdvanceSpec(v, rows, size);
      AdvanceDropsPending(v, rows, size);
    }
  }

  /** A bit short of the eighth is shifted into the pending value, which stays below 2^bits. */
  lemma BinAccumulateInv(v: View, key: int, rows: nat, size: nat)
    requires Inv(v, rows, size) && v.displayMode == DisplayBin
    requires (key == '0' as int || key == '1' as int) && v.binPendingBits + 1 < 8
    ensures var r := HandleBinInput(v, key, v.Index(), rows, size);
      && r.write.None?
      && r.view.binPendingValue == v.binPendingValue * 2 + (key - '0' as int)
      && r.view == v.(binPendingValue := r.view.binPendingValue, binPendingBits := v.binPendingBits + 1)
      && Inv(r.view, rows, size)
  {
    Pow2Monotone(v.binPendingBits, 6);
    Pow2Byte();
    var value := v.binPendingValue * 2 + (key - '0' as int);
    assert value < Pow2(v.binPendingBits + 1);
  }

  /** The binary handler keeps the invariant; only the eighth bit writes, then advances. */
  lemma BinInputKeepsInv(v: View, key: int, rows: nat, size: nat)
    requires Inv(v, rows, size) && v.displayMode == DisplayBin
    ensures var r := HandleBinInput(v, key, v.Index(), rows, size);
      && Inv(r.view, rows, size)
      && r.view.cursorArea == v.cursorArea && r.view.displayMode == v.displayMode
      && (r.write.Some? ==> r.write.value.index == v.Index() && r.view == Advance(v, rows, size))
      && (r.write.None? ==> r.view == v.(binPendingBits := r.view.binPendingBits, binPendingValue := r.view.binPendingValue))
  {
    if key == '0' as int || key == '1' as int {
      var bits := v.binPendingBits + 1;
      if bits == 8 {
        AdvanceSpec(v, rows, size);
        AdvanceDropsPending(v, rows, size);
      } else {
        BinAccumulateInv(v, key, rows, size);
      }
    }
  }

  /**
   * A key keeps the invariant, the area and the mode; a write it issues
   * lands on the byte under the cursor, and the cursor then advances as
   * `advance_cursor` says; a key that writes nothing leaves the cursor and
   * the viewport where they were.
   */
  lemma HandleCharKeepsInv(v: View, key: int, rows: nat, size: nat)
    requires Inv(v, rows, size)
    ensures var r := HandleChar(v, key, rows, size);
      && Inv(r.view, rows, size)
      && r.view.cursorArea == v.cursorArea && r.view.displayMode == v.displayMode
      && (r.write.Some? ==> r.write.value.index == v.Index() && r.view == Advance(v, rows, size))
      && (r.write.None? ==> r.view.Index() == v.Index() && r.view.startOffset == v.startOffset)
  {
    var r := HandleChar(v, key, rows, size);
    if v.cursorArea == AreaAscii {
      assert r == HandleAscii(v, key, v.Index(), rows, size);
      if IsPrint(key) {
        AdvanceSpec(v, rows, size);
      }
    } else if v.displayMode == DisplayHex {
      assert r == HandleHexInput(v, key, v.Index(), rows, size);
      HexInputKeepsInv(v, key, rows, size);
    } else {
      assert r == HandleBinInput(v, key, v.Index(), rows, size);
      BinInputKeepsInv(v, key, rows, size);
    }
  }

  /** Outside the ASCII area, keys the strategy does not accept do nothing at all. */
  lemma InvalidKeysIgnored(v: View, key: int, rows: nat, size: nat)
    requires v.cursorArea == AreaHex && !StrategyOf(v.displayMode).IsValidChar(key)
    ensures HandleChar(v, key, rows, size) == Input(v, None)
  {
  }

  /** In the ASCII area a printable key is written as its code; any other key does nothing. */
  lemma AsciiKey(v: View, key: int, rows: nat, size: nat)
    requires v.cursorArea == AreaAscii
    ensures IsPrint(key) ==> HandleChar(v, key, rows, size) == Input(Advance(v, rows, size), Some(Write(v.Index(), key)))
    ensures !IsPrint(key) ==> HandleChar(v, key, rows, size) == Input(v, None)
  {
  }

  /** The record of a hex-mode editor waiting for the first digit of a byte. */
  predicate AwaitsHexByte(v: View)
  {
    v.cursorArea == AreaHex && v.displayMode == DisplayHex && v.hexPending == -1
  }

  /** The record of a binary-mode editor waiting for the first bit of a byte. */
  predicate AwaitsBinByte(v: View)
  {
    v.cursorArea == AreaHex && v.displayMode == DisplayBin && v.binPendingBits == 0 && v.binPendingValue == 0
  }

  /**
   * Two hex digits make one write of high digit times 16 plus low digit at
   * the cursor's byte, after which the cursor advances; the first digit
   * alone writes nothing and moves nothing.
   */
  lemma HexTwoKeys(v: View, hi: int, lo: int, rows: nat, size: nat)
    requires AwaitsHexByte(v) && IsXDigit(hi) && IsXDigit(lo)
    ensures FeedKeys(v, [hi], rows, size) == (v.(hexPending := HexDigitValue(hi)), [])
    ensures FeedKeys(v, [hi, lo], rows, size) == (Advance(v, rows, size), [Write(v.Index(), HexPairValue(hi, lo))])
  {
    assert [hi, lo][..1] == [hi];
    assert [hi][..0] == [];
    assert FeedKeys(v, [], rows, size) == (v, []);
    var p := v.(hexPending := HexDigitValue(hi));
    assert HandleChar(v, hi, rows, size) == Input(p, None);
    var empty: seq<Write> := [];
    assert empty + [] == [];
    assert FeedKeys(v, [hi], rows, size).1 == empty + [];
    assert p.(hexPending := -1) == v;
    var w := Write(v.Index(), HexPairValue(hi, lo));
    assert HandleChar(p, lo, rows, size) == Input(Advance(v, rows, size), Some(w));
    assert FeedKeys(v, [hi, lo][..1], rows, size) == (p, empty);
    assert [hi, lo][|[hi, lo]| - 1] == lo;
    assert FeedKeys(v, [hi, lo], rows, size) == (Advance(v, rows, size), empty + [w]);
    assert empty + [w] == [w];
  }

  /** Typing the two digits a byte is displayed with writes that byte back. */
  lemma HexRoundTrip(v: View, b: uint8, rows: nat, size: nat)
    requires AwaitsHexByte(v)
    ensures FeedKeys(v, Codes(HexString(b)), rows, size) == (Advance(v, rows, size), [Write(v.Index(), b)])
  {
    HexStringRoundTrip(b);
    var keys := Codes(HexString(b));
    assert keys == [HexString(b)[0] as int, HexString(b)[1] as int];
    HexTwoKeys(v, keys[0], keys[1], rows, size);
  }

  /** One bit key short of the eighth shifts the bit in and writes nothing. */
  lemma BinShiftStep(p: View, key: int, rows: nat, size: nat)
    requires p.cursorArea == AreaHex && p.displayMode == DisplayBin
    requires key == '0' as int || key == '1' as int
    requires p.binPendingBits < 7 && p.binPendingValue < 128
    ensures HandleChar(p, key, rows, size)
              == Input(p.(binPendingValue := p.binPendingValue * 2 + (key - '0' as int), binPendingBits := p.binPendingBits + 1), None)
  {
  }

  /** The eighth bit key writes the completed byte at the cursor's byte and advances. */
  lemma BinLastStep(p: View, key: int, rows: nat, size: nat)
    requires p.cursorArea == AreaHex && p.displayMode == DisplayBin
    requires key == '0' as int || key == '1' as int
    requires p.binPendingBits == 7 && p.binPendingValue < 128
    ensures HandleChar(p, key, rows, size)
              == Input(Advance(p.(binPendingBits := 0, binPendingValue := 0), rows, size),
                       Some(Write(p.Index(), p.binPendingValue * 2 + (key - '0' as int))))
  {
  }

  /** The first `j < 8` bits of a byte only accumulate: their value, shifted in, and no write. */
  lemma {:induction false} BinPrefix(v: View, s: string, j: nat, rows: nat, size: nat)
    requires AwaitsBinByte(v) && IsBinString(s) && |s| == 8 && j < 8
    ensures BitsValue(s[..j]) < 128
    ensures FeedKeys(v, Codes(s)[..j], rows, size)
              == (v.(binPendingBits := j, binPendingValue := BitsValue(s[..j])), [])
  {
    BitsValueBound(s[..j]);
    Pow2Monotone(j, 7);
    Pow2Byte();
    if j == 0 {
      assert Codes(s)[..0] == [];
      assert s[..0] == [];
    } else {
      BinPrefix(v, s, j - 1, rows, size);
      var keys := Codes(s)[..j];
      assert keys[..j - 1] == Codes(s)[..j - 1];
      var key := keys[j - 1];
      var p := v.(binPendingBits := j - 1, binPendingValue := BitsValue(s[..j - 1]));
      assert FeedKeys(v, keys, rows, size) == FeedKey((p, []), key, rows, size);
      BitsValueLast(s, j);
      BinShiftStep(p, key, rows, size);
      var empty: seq<Write> := [];
      assert empty + [] == [];
    }
  }

  /** The last of `j` bit characters is the low bit of their value. */
  lemma BitsValueLast(s: string, j: nat)
    requires 0 < j <= |s|
    ensures BitsValue(s[..j]) == BitsValue(s[..j - 1]) * 2 + (s[j - 1] as int - '0' as int)
            || (s[j - 1] != '0' && s[j - 1] != '1')
  {
    var prefix := s[..j];
    assert prefix[..j - 1] == s[..j - 1];
  }

  /** The eighth bit key, fed after seven that only accumulated, writes the byte and advances. */
  lemma BinFinalKey(v: View, pendingValue: nat, key: int, rows: nat, size: nat)
    requires AwaitsBinByte(v) && pendingValue < 128
    requires key == '0' as int || key == '1' as int
    ensures FeedKey((v.(binPendingBits := 7, binPendingValue := pendingValue), []), key, rows, size)
              == (Advance(v, rows, size), [Write(v.Index(), pendingValue * 2 + (key - '0' as int))])
  {
    var p := v.(binPendingBits := 7, binPendingValue := pendingValue);
    BinLastStep(p, key, rows, size);
    assert p.(binPendingBits := 0, binPendingValue := 0) == v;
    var empty: seq<Write> := [];
    assert empty + [Write(v.Index(), pendingValue * 2 + (key - '0' as int))]
        == [Write(v.Index(), pendingValue * 2 + (key - '0' as int))];
  }

  /** Eight bit keys make one write of their value at the cursor's byte, then the cursor advances. */
  lemma BinEightKeys(v: View, s: string, rows: nat, size: nat)
    requires AwaitsBinByte(v) && IsBinString(s) && |s| == 8
    ensures BitsValue(s) < 256
    ensures FeedKeys(v, Codes(s), rows, size) == (Advance(v, rows, size), [Write(v.Index(), BitsValue(s))])
  {
    BinPrefix(v, s, 7, rows, size);
    BitsValueBound(s);
    Pow2Byte();
    var keys := Codes(s);
    assert keys[..7] == keys[..|keys| - 1];
    assert FeedKeys(v, keys, rows, size)
        == FeedKey((v.(binPendingBits := 7, binPendingValue := BitsValue(s[..7])), []), keys[7], rows, size);
    assert s[..8] == s;
    BitsValueLast(s, 8);
    BinFinalKey(v, BitsValue(s[..7]), keys[7], rows, size);
  }

  /** Typing the eight bits a byte is displayed with writes that byte back. */
  lemma BinRoundTrip(v: View, b: uint8, rows: nat, size: nat)
    requires AwaitsBinByte(v)
    ensures FeedKeys(v, Codes(BitString(b)), rows, size) == (Advance(v, rows, size), [Write(v.Index(), b)])
  {
    BitStringRoundTrip(b);
    BinEightKeys(v, BitString(b), rows, size);
  }

  /** Typing 'a' then 'f' in the hex area writes 0xAF. */
  lemma HexExample(v: View, rows: nat, size: nat)
    requires AwaitsHexByte(v)
    ensures FeedKeys(v, ['a' as int, 'f' as int], rows, size) == (Advance(v, rows, size), [Write(v.Index(), 0xAF)])
  {
    HexTwoKeys(v, 'a' as int, 'f' as int, rows, size);
  }

  /** Typing 0, 1, 1, 0, 1, 0, 1, 1 in the binary area writes 0x6B. */
  lemma BinExample(v: View, rows: nat, size: nat)
    requires AwaitsBinByte(v)
    ensures FeedKeys(v, Codes("01101011"), rows, size) == (Advance(v, rows, size), [Write(v.Index(), 0x6B)])
  {
    var s := "01101011";
    assert s[..0] == [];
    assert s[..1][..0] == s[..0];
    assert BitsValue(s[..1]) == 0;
    assert s[..2][..1] == s[..1];
    assert BitsValue(s[..2]) == 1;
    assert s[..3][..2] == s[..2];
    assert BitsValue(s[..3]) == 3;
    assert s[..4][..3] == s[..3];
    assert BitsValue(s[..4]) == 6;
    assert s[..5][..4] == s[..4];
    assert BitsValue(s[..5]) == 13;
    assert s[..6][..5] == s[..5];
    assert BitsValue(s[..6]) == 26;
    assert s[..7][..6] == s[..6];
    assert BitsValue(s[..7]) == 53;
    assert s[..8][..7] == s[..7];
    assert BitsValue(s[..8]) == 107;
    assert s[..8] == s;
    BinEightKeys(v, s, rows, size);
  }
}
