# TinyHexaIU editing engine in Dafny

TinyHexaIU is a terminal hex/binary editor. This project models its editing
engine and proves what the engine guarantees. It does not model the ncurses
screen around the engine.

- **The byte buffer** (`DataBuffers`). It holds the loaded bytes, their count and two flags:
  - `edited`: the bytes differ from what was last loaded or saved;
  - `everChanged`: a write has changed a byte since the last load.
  `BufferState` is the buffer as a value. The class `DataBuffer` keeps the bytes in an `array?<uint8>`, where `null` is the NULL pointer, and updates it in place.
- **The display strategies and byte-to-text converters** (`DisplayStrategies`, `Utilities`). The hex and binary strategies each give:
  - the grid geometry;
  - the accepted input characters;
  - the cell text of a byte, written into a caller's `char` array;
  - the header and the empty cell.
  The converters fill caller arrays. Decoders that read the text back prove that every displayed cell is text the editor accepts and turns back into the same byte.
- **The editor record** (`EditorRecord`, `EditorTransitions`, `EditorInput`). It has:
  - the viewport start offset;
  - the cursor row and column;
  - the active area (hex or ASCII) and the display mode;
  - the pending partial input: a hex nibble, or a count of binary digits and their value.
  `EditorTransitions` gives every routine of the input module as a function on the record `View`. The class `Editor` runs the same steps on its fields. Each of its methods ensures that its new `State()` is the function applied to the old state. The invariant `Inv` says:
  - the pending input is well formed;
  - the cursor lies inside the grid and on an existing byte;
  - over an empty buffer the cursor is at offset 0, row 0, column 0.
  Every operation keeps `Inv`. Scrolling down caps the start offset at the last full page. Advancing can carry the viewport past that page, and a page down from there moves the view back (`PageDownMovesBack`).
- **The key dispatcher** (`MainController`). `Step` maps a logical key to engine operations on a `Session`, which is the editor record plus the buffer. `MainController.HandleInput` does the same on the objects.
- **The status bar values** (`BottomBar`). These are:
  - the little-endian read of four bytes, with missing bytes read as zero;
  - the signed and unsigned 8- and 32-bit readings of those bytes;
  - the file state text.

The number of visible rows (`getmaxy(win) - 3` in the program) is a parameter `rows >= 1`. File reading and writing are parameters: `read`/`reread` is the bytes read, or `None` when reading failed, and `writeOk` says whether writing succeeded.

## Model

| member | source | states |
|---|---|---|
| Bytes.Pow2Monotone | src/Controller/Utilities.c:27 | `1 << m` is at most `1 << n` when `m <= n` |
| Bytes.ShrNarrow | src/Controller/Utilities.c:27 | shifting a value of fewer than n bits right by n bits gives 0 |
| Bytes.RowsFit | src/View/Editor.h:111-113 | a cell at row `y < rows`, column `x < w` has relative index below the page size `rows * w` |
| Chars.HexDigitValue | src/View/editor_input.c:166 | the digit value is a nibble 0..15: `key - '0'` for decimal digits, `key - 'a' + 10` or `key - 'A' + 10` for letters |
| Chars.HexDigitCaseInsensitive | src/View/editor_input.c:166 | upper- and lower-case spellings of a hex letter have the same value |
| Utilities.ByteToBitString | src/Controller/Utilities.c:24-30 | `out[0..8]` is the bit string of the value, most significant bit first; `out[8]` is NUL; nothing past `out[8]` changes |
| Utilities.ByteToHexString | src/Controller/Utilities.c:38-43 | `out[0..2]` is the high then low nibble digit from `"0123456789abcdef"`; `out[2]` is NUL; nothing past `out[2]` changes |
| Utilities.BitStringAt | src/Controller/Utilities.c:26-28 | character `7 - b` is '1' exactly when bit b is set, and is always '0' or '1' |
| Utilities.BitsValueBound | src/View/editor_input.c:181-183 | n binary digits hold a value below 2^n |
| Utilities.BitStringPrefix | src/Controller/Utilities.c:26-28 | the first j characters of the bit string read as the value shifted right by 8 - j |
| Utilities.BitStringRoundTrip | src/Controller/Utilities.c:24-30 | the bit string holds only '0'/'1' and reads back as the byte |
| Utilities.BitStringInjective | src/Controller/Utilities.c:24-30 | distinct bytes give distinct bit strings |
| Utilities.HexCharsDecode | src/Controller/Utilities.c:39 | entry n of the digit table is a lowercase hex digit whose value is n |
| Utilities.HexStringRoundTrip | src/Controller/Utilities.c:38-43 | both characters are lowercase hex digits, and high*16 + low reads back as the byte |
| Utilities.HexStringInjective | src/Controller/Utilities.c:38-43 | distinct bytes give distinct hex strings |
| DisplayStrategies.DisplayStrategy.BytesPerLine | src/View/Display_Strategy.c:62-65 | a row holds at least one cell (16 for hex, 4 for binary, see Geometry) |
| DisplayStrategies.DisplayStrategy.FormatByte | src/View/Display_Strategy.c:85-100 | `out[0..width)` is the digits followed by a space and `out[width]` is NUL, where width is the cell width; nothing further changes |
| DisplayStrategies.DisplayStrategy.EmptyCell | src/View/Display_Strategy.c:109-112 | an empty cell is all spaces and as wide as the strategy's cell |
| DisplayStrategies.Geometry | src/View/Display_Strategy.c:62-71 | hex has 16 cells of width 3 per row, binary 4 cells of width 9; the headers are "Hex" and "Bin" |
| DisplayStrategies.ValidChars | src/View/Display_Strategy.c:74-77 | every digit a cell shows is a key the same strategy accepts |
| DisplayStrategies.CellShape | src/View/Display_Strategy.c:85-100 | a cell is as wide as the cell width and the empty cell, ends in a space, and starts with the digits, which read back as the byte |
| DisplayStrategies.CellInjective | src/View/Display_Strategy.c:85-100 | distinct bytes format to distinct cells |
| DataBuffers.EmptyBuffer | src/Model/Data_Buffer.c:123-139 | the buffer after init or deinit has size 0 and both flags clear |
| DataBuffers.SetByteNoOp | src/Model/Data_Buffer.c:67-74 | a write out of range, with no storage, or of the value already stored changes nothing, flags included |
| DataBuffers.SetByteChanges | src/Model/Data_Buffer.c:75-77 | a write of a new value in range changes exactly that byte, keeps the size and sets both flags |
| DataBuffers.GetAfterSet | src/Model/Data_Buffer.c:54-77 | a read after a write sees the written value at its index when in range and the old byte elsewhere |
| DataBuffers.GetByteIsByteAt | src/Model/Data_Buffer.c:54-59 | `get_byte` is the byte when the index is in range and 0 otherwise |
| DataBuffers.SetByteFlags | src/Model/Data_Buffer.c:67-78 | a write never clears a flag and sets `edited` only together with `everChanged`; the bytes change exactly when the index is in range and the value is new |
| DataBuffers.GetRangeSpec | src/Model/Data_Buffer.c:87-93 | a range is copied exactly when `start < end <= size`, and then the copy is `bytes[start..end)` |
| DataBuffers.LoadSaveRoundTrip | src/Model/Data_Buffer.c:29-45 | a load succeeds with both flags clear, and saving right after writes the loaded bytes back |
| DataBuffers.SaveKeepsHistory | src/Model/Data_Buffer.c:101-112 | a save keeps the bytes and `everChanged`; it succeeds exactly with storage and a successful write; a failed save or read changes nothing |
| DataBuffers.DataBuffer.Init | src/Model/Data_Buffer.c:123-128 | the new buffer is the empty buffer |
| DataBuffers.DataBuffer.Deinit | src/Model/Data_Buffer.c:135-139 | the buffer becomes the empty buffer |
| DataBuffers.DataBuffer.GetByte | src/Model/Data_Buffer.c:54-59 | the byte at the index, or 0 out of range or without storage |
| DataBuffers.DataBuffer.SetByte | src/Model/Data_Buffer.c:67-78 | the new state is `SetByte` of the old state, on the same array |
| DataBuffers.DataBuffer.GetRange | src/Model/Data_Buffer.c:87-93 | a valid range fills `dest[0..end-start)` with the bytes and leaves the rest of `dest`; an invalid one leaves all of `dest` |
| DataBuffers.DataBuffer.Load | src/Model/Data_Buffer.c:29-45 | on a successful read the buffer holds the read bytes in a fresh array with both flags clear; a failed read changes nothing |
| DataBuffers.DataBuffer.Save | src/Model/Data_Buffer.c:101-112 | the bytes handed to the writer are the buffer's bytes; success clears only `edited`; failure changes nothing |
| EditorRecord.View.BytesPerLine | src/View/Editor.h:96-98 | a row holds 16 or 4 bytes, as the active strategy says |
| EditorRecord.ResetInv | src/View/editor_input.c:140-152 | the reset state keeps the invariant for every buffer and puts the cursor on byte 0 |
| EditorRecord.Layout | src/View/Editor.h:27-30 | data cells start at column 10; the column widths equal the strategies' cell widths; the ASCII area starts at column 59 in hex mode and 47 in binary mode (lines 103-106) |
| EditorRecord.IndexInPage | src/View/Editor.h:111-113 | the cursor's index lies on the page that starts at the start offset |
| EditorTransitions.IndexSteps | src/View/Editor.h:111-113 | the next column is one byte on and the next row is one row width on |
| EditorTransitions.ResetPendingSpec | src/View/Display_Strategy.c:116-122 | resetting pending input leaves none and touches only the pending fields |
| EditorTransitions.ClampSpec | src/View/editor_input.c:230-247 | the clamp changes only the column, never moves it right, leaves it alone on an existing byte, and otherwise puts it on the last byte |
| EditorTransitions.InvIsRowInv | src/View/editor_input.c:230-247 | the invariant implies the row invariant the clamp needs |
| EditorTransitions.AdvanceInRow | src/View/editor_input.c:254-256 | before the row's end, advancing steps one column right onto the next byte |
| EditorTransitions.AdvanceWrap | src/View/editor_input.c:257-262 | at the row's end, advancing goes to column 0 and one row down, or, on the last row, keeps the row and scrolls the viewport by exactly one row; either way onto the next byte |
| EditorTransitions.AdvanceSpec | src/View/editor_input.c:250-272 | advancing keeps the invariant, moves one byte on unless at the last byte, clears pending input, and keeps area and mode |
| EditorTransitions.MoveUpStep | src/View/editor_input.c:195-200 | up goes one row back, scrolling by exactly one row at the top, and does nothing at the top of a viewport that starts in the first row |
| EditorTransitions.MoveDownStep | src/View/editor_input.c:201-208 | down goes one row on when the byte below exists, scrolls by exactly one row at the last row while bytes follow the page, and otherwise does nothing |
| EditorTransitions.MoveHorizontalStep | src/View/editor_input.c:211-228 | left and right move one column within the row and onto existing bytes only, then clear pending input |
| EditorTransitions.MoveCursorKeepsInv | src/View/editor_input.c:60-67 | every cursor move keeps the invariant, leaves no pending input and keeps area and mode |
| EditorTransitions.MoveCursorHorizontal | src/View/editor_input.c:60-67 | left/right change the index by one within the row, or not at all at its ends |
| EditorTransitions.MoveCursorUp | src/View/editor_input.c:60-67 | up lowers the index by a row width, or leaves it at the top of the file |
| EditorTransitions.MoveCursorDown | src/View/editor_input.c:60-67 | down raises the index by a row width; when the row below is short the cursor lands on the last byte |
| EditorTransitions.UpUndoesDown | src/View/editor_input.c:192-209 | up returns to the byte down left, wherever down moved a whole row |
| EditorTransitions.DownLeavesRowAbove | src/View/editor_input.c:201-208 | after a whole-row down move there is a row above the cursor |
| EditorTransitions.RightUndoesLeft | src/View/editor_input.c:211-224 | right returns to the byte left left, wherever left moved |
| EditorTransitions.ScrollOffset | src/View/editor_input.c:78-92 | a downward scroll sets the offset to start + delta capped at the last full page's offset max(0, size - page); an upward scroll stops at 0; a zero delta keeps the offset |
| EditorTransitions.PageDownMovesBack | src/View/editor_input.c:78-84 | a page down from a viewport past the last full page moves it back: start 16 over 20 bytes with one hex row goes to 4 |
| EditorTransitions.ScrollKeepsInv | src/View/editor_input.c:74-96 | scrolling keeps the invariant and the cursor row, never moves the column right, and clears pending input |
| EditorTransitions.PageUpUndoesPageDown | src/View/editor_input.c:78-92 | page up after page down returns to the same offset when two pages fit |
| EditorTransitions.ToggleAreaSpec | src/View/editor_input.c:101-108 | the toggle flips only the area, keeps the invariant, and twice is the identity |
| EditorTransitions.DivideIntoRows | src/View/editor_input.c:129-131 | a page-relative index splits into a row below `rows` and a column below the width |
| EditorTransitions.PlaceInPage | src/View/editor_input.c:125-131 | a byte on the current page keeps the offset and gets the cursor on it |
| EditorTransitions.PlaceRealign | src/View/editor_input.c:125-131 | a byte past the page moves the offset to the start of its row and puts the cursor on row 0 over it |
| EditorTransitions.ToggleDisplayModeSpec | src/View/editor_input.c:113-132 | the mode flips and the cursor stays on the same byte with no pending input; the offset is kept exactly when the byte is on the page in the new geometry, and otherwise realigned to a row start with the cursor on row 0 |
| EditorTransitions.ToggleDisplayModeTwice | src/View/editor_input.c:113-132 | toggling twice restores the mode and the byte under the cursor |
| EditorTransitions.AdvanceDropsPending | src/View/editor_input.c:268-269 | advancing discards the active mode's pending input, so clearing it before is the same |
| EditorTransitions.HexInputKeepsInv | src/View/editor_input.c:164-175 | a hex key keeps the invariant; a write goes to the cursor's byte and advances; no write changes only the nibble |
| EditorTransitions.BinAccumulateInv | src/View/editor_input.c:178-183 | a bit before the eighth shifts into the pending value and counts, writes nothing and keeps the invariant |
| EditorTransitions.BinInputKeepsInv | src/View/editor_input.c:178-190 | a binary key keeps the invariant; a write goes to the cursor's byte and advances; no write changes only the pending bits |
| EditorTransitions.HandleCharKeepsInv | src/View/editor_input.c:44-52 | every key keeps the invariant, area and mode; a write goes to the cursor's index and advances; otherwise the cursor stays |
| EditorTransitions.InvalidKeysIgnored | src/View/editor_input.c:165 | in the hex area a key the mode does not accept changes nothing (also line 179) |
| EditorTransitions.AsciiKey | src/View/editor_input.c:156-161 | in the ASCII area, in either mode, a printable key writes its own code at the cursor and advances; any other key changes nothing |
| EditorTransitions.HexTwoKeys | src/View/editor_input.c:164-175 | the first hex digit only sets the pending nibble; the second writes high*16 + low at the cursor and advances |
| EditorTransitions.HexRoundTrip | src/Controller/Utilities.c:38-43 | typing the two digits a byte is shown with writes that byte (keys per src/View/editor_input.c:164-175) |
| EditorTransitions.HexExample | src/View/editor_input.c:164-175 | 'a' then 'f' writes 0xAF |
| EditorTransitions.BinShiftStep | src/View/editor_input.c:181-183 | a bit before the eighth shifts in without a write |
| EditorTransitions.BinLastStep | src/View/editor_input.c:184-189 | the eighth bit writes the value, zeroes both counters and advances |
| EditorTransitions.BinPrefix | src/View/editor_input.c:178-190 | the first j < 8 bits of a byte only accumulate their value and write nothing |
| EditorTransitions.BitsValueLast | src/View/editor_input.c:181-182 | one more binary digit doubles the value and adds the digit |
| EditorTransitions.BinFinalKey | src/View/editor_input.c:184-189 | after seven accumulated bits the eighth key makes exactly one write and advances |
| EditorTransitions.BinEightKeys | src/View/editor_input.c:178-190 | eight bit keys make exactly one write, of their most-significant-first value, at the cursor, then advance |
| EditorTransitions.BinRoundTrip | src/Controller/Utilities.c:24-30 | typing the eight bits a byte is shown with writes that byte (keys per src/View/editor_input.c:178-190) |
| EditorTransitions.BinExample | src/View/editor_input.c:178-190 | 0,1,1,0,1,0,1,1 writes 0x6B |
| EditorInput.ApplyWrite | src/Model/Data_Buffer.c:67-78 | a write keeps the size and makes the written byte readable at its index; no write changes nothing |
| EditorInput.Editor.Idx | src/View/Editor.h:111-113 | the class computes the record's index |
| EditorInput.Editor.constructor | src/View/Editor.c:34-54 | a new editor is at the reset state over the given buffer |
| EditorInput.Editor.Reset | src/View/editor_input.c:140-152 | the record becomes the reset state and keeps the invariant |
| EditorInput.Editor.ResetPending | src/View/Display_Strategy.c:116-122 | the active strategy's pending input is cleared |
| EditorInput.Editor.MoveVertical | src/View/editor_input.c:192-209 | the fields follow `MoveVertical` |
| EditorInput.Editor.MoveHorizontal | src/View/editor_input.c:211-228 | the fields follow `MoveHorizontal` |
| EditorInput.Editor.Clamp | src/View/editor_input.c:230-247 | the fields follow `Clamp` |
| EditorInput.Editor.Advance | src/View/editor_input.c:250-272 | the fields follow `Advance` |
| EditorInput.Editor.MoveCursor | src/View/editor_input.c:60-67 | the fields follow `MoveCursor`, and the invariant is kept |
| EditorInput.Editor.ScrollStart | src/View/editor_input.c:78-92 | the offset follows `ScrollStart` |
| EditorInput.Editor.Scroll | src/View/editor_input.c:74-96 | the fields follow `Scroll`, and the invariant is kept |
| EditorInput.Editor.ToggleArea | src/View/editor_input.c:101-108 | the fields follow `ToggleArea`, and the invariant is kept |
| EditorInput.Editor.Place | src/View/editor_input.c:122-131 | the fields follow `Place` |
| EditorInput.Editor.ToggleDisplayMode | src/View/editor_input.c:113-132 | mode, strategy and fields follow `ToggleDisplayMode`, and the invariant is kept |
| EditorInput.Editor.HandleAscii | src/View/editor_input.c:156-161 | the record and the buffer follow `HandleAscii` |
| EditorInput.Editor.HandleHexInput | src/View/editor_input.c:164-175 | the record and the buffer follow `HandleHexInput` |
| EditorInput.Editor.HandleBinInput | src/View/editor_input.c:178-190 | the record and the buffer follow `HandleBinInput` |
| EditorInput.Editor.HandleChar | src/View/editor_input.c:44-52 | the record and the buffer follow `HandleChar` through the dispatch table (lines 31-36), and the invariant is kept |
| BottomBar.Pow256 | src/View/Bottom_Bar.c:92 | the byte weights are positive |
| BottomBar.LeValueBound | src/View/Bottom_Bar.c:83-95 | n bytes read little-endian give a value below 256^n |
| BottomBar.LeValueStep | src/View/Bottom_Bar.c:86-93 | reading one more byte adds it times 256^i |
| BottomBar.LeValueBytes | src/View/Bottom_Bar.c:83-95 | byte k of the value read is the byte at index + k, or 0 past the end |
| BottomBar.LeValuePastEnd | src/View/Bottom_Bar.c:88-91 | reading wholly past the end gives 0 |
| BottomBar.ReadUnsignedLe | src/View/Bottom_Bar.c:83-95 | the value is the sum of byte(index + k) * 256^k for k below the count, with missing bytes as 0; it is below 256^count; it is 0 for a count of 0 or less |
| BottomBar.ToSigned8 | src/View/Bottom_Bar.c:54 | s8 is the value in -128..127 congruent to the byte modulo 256, negative exactly when the byte is 128 or more |
| BottomBar.ToUnsigned32 | src/View/Bottom_Bar.c:57 | u32 is the raw value modulo 2^32 |
| BottomBar.ToSigned32 | src/View/Bottom_Bar.c:56 | s32 is the value in -2^31..2^31-1 congruent to the raw value modulo 2^32, negative exactly when u32 is 2^31 or more |
| BottomBar.ComputeStatus | src/View/Bottom_Bar.c:34-57 | the values computed for the bar are `Status` of the editor and the buffer |
| BottomBar.StatusSpec | src/View/Bottom_Bar.c:44-57 | u8 is the byte under the cursor (0 past the end); s8 is congruent to it; u32 is the little-endian reading of the four bytes from the cursor and decodes back to them; s32 is congruent to u32 |
| BottomBar.StateTextHistory | src/View/Bottom_Bar.c:34-41 | the text is "NOTHING changed" after a load, "file not saved" after a write that changed a byte, and "file saved" after a successful save of a changed buffer |
| MainController.ViewKeyKeepsInv | src/Controller/Main_Controller.c:37-75 | arrows, pages, Tab and F1 keep the invariant; arrows and pages also clear pending input and keep area and mode |
| MainController.ReloadKeepsInv | src/Controller/Main_Controller.c:82-86 | a reload keeps the invariant over the new buffer |
| MainController.EditKeepsInv | src/Controller/Main_Controller.c:87-89 | any other key keeps the invariant |
| MainController.StepKeepsInv | src/Controller/Main_Controller.c:29-91 | every key keeps the invariant |
| MainController.StepFails | src/Controller/Main_Controller.c:76-86 | a key fails exactly for F2 with no bytes or a failed write, or F3 with a failed read; a failure changes nothing |
| MainController.NavigationSpec | src/Controller/Main_Controller.c:37-71 | arrows and pages leave the buffer alone, clear pending input, and keep area and mode |
| MainController.TabSpec | src/Controller/Main_Controller.c:58-61 | Tab flips the area on the same byte and clears the hex nibble; pending binary bits survive it |
| MainController.DisplayModeKeySpec | src/Controller/Main_Controller.c:72-75 | F1 flips the mode on the same byte with no pending input and leaves the buffer alone |
| MainController.SaveKeySpec | src/Controller/Main_Controller.c:76-81 | F2 with bytes and a successful write keeps the record and the bytes, clears `edited` and keeps `everChanged` |
| MainController.ReloadKeySpec | src/Controller/Main_Controller.c:82-86 | F3 with a successful read holds the read bytes, clears both flags and puts the record at the reset state: offset 0, cursor (0,0), hex area, hex mode, no pending input |
| MainController.StepChangesAtMostCursorByte | src/Controller/Main_Controller.c:29-91 | a key other than F3 keeps the size, changes no byte but the one under the cursor, and never clears `everChanged` |
| MainController.MainController.constructor | src/Controller/Main_Controller.c:126-147 | the controller holds the editor and the buffer the editor edits |
| MainController.MainController.Init | src/Controller/Main_Controller.c:126-147 | initialisation succeeds exactly when the file is read, and then holds the read bytes with both flags clear under a reset editor |
| MainController.MainController.MoveInput | src/Controller/Main_Controller.c:37-57 | an arrow moves the cursor, then clears the hex nibble |
| MainController.MainController.ScrollInput | src/Controller/Main_Controller.c:62-71 | a page key scrolls by a page, then clears the hex nibble |
| MainController.MainController.TabInput | src/Controller/Main_Controller.c:58-61 | Tab toggles the area, then clears the hex nibble |
| MainController.MainController.ViewKeyInput | src/Controller/Main_Controller.c:36-75 | the keys that only move, scroll or switch follow `ViewKey` |
| MainController.MainController.HandleInput | src/Controller/Main_Controller.c:29-91 | the outcome, the record and the buffer follow `Step`, and the invariant is kept |

## Left out

- Drawing is not modelled: the editor grid, the top and bottom bars, the window layout and the ncurses calls. Only the values the bottom bar prints are modelled.
- The row count `getmaxy(win) - 3` is the constant field `rows >= 1`. A window resize is not modelled.
- File reading and writing are outside the model. A load receives the bytes read, or `None` for a failed read; a save receives whether the write succeeded.
- `fatal_error` ends the process when a load or save fails. The model returns a `Fail` outcome instead and leaves the state unchanged. For F3 this means a failed reload does not reach `editor_reset`; the program never gets there either, because it has exited.
- Allocation failure in `readFileToBuffer` is not modelled.
- `main_controller_run` (the key loop up to F12), `main.c`, the `printf` messages and `main_controller_deinit` are not modelled.
- MainController.MainController.Init: does not model `main_window_init`; its window creation and fatal exit are outside the model.
- Machine-word overflow of `size_t` and `int` is not modelled: indices, offsets and `(int)page` are unbounded naturals and integers.
- `isprint`, `isxdigit` and `tolower` are their "C" locale values over ASCII. Key codes are the abstract datatype `Key`, and every code other than the named keys is `Other(code)`.
- The ORs in `(pending << 4) | digit`, `(value << 1) | bit` and `value |= byte << (8 * i)` are modelled as additions. The bits they combine never overlap.
- The `(unsigned char)` casts are modelled as `% 256`.
- The `(signed char)` and `(int32_t)` conversions in the bottom bar are read as two's complement. C leaves the conversion of an out-of-range value to a signed type implementation-defined; two's complement is what common compilers do.
- BottomBar.ReadUnsignedLe: requires `byteCount <= 8`. A shift by 64 or more bits is undefined in C, and the program always reads 4 bytes.
- DataBuffers.DataBuffer.GetRange: requires that `dest` is not the buffer's own array and is long enough for a valid range. `memcpy` has the same demands, and the C code cannot check them.
- The `DisplayStrategy` function-pointer tables are a two-variant datatype. `reset_pending` is `EditorTransitions.ResetPending` and the `Editor.ResetPending` method.
