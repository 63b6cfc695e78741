/**
 * The controller: one key of the main loop. Navigation keys move or
 * scroll the editor and drop a half-typed hex digit, F1 switches between
 * hex and binary display, F2 saves, F3 reloads the file and resets the
 * editor, and every other key is an edit for the editor. The file system
 * is a parameter: `reread` is what reading the file again produced and
 * `writeOk` whether writing it succeeded. A failed load or save ends the
 * program in the source; here it is the `Fail` outcome, with the session
 * left as it was.
 */
module MainController {
  import opened Bytes
  import opened Wrappers
  import opened Chars
  import opened DataBuffers
  import opened EditorRecord
  import opened EditorTransitions
  import opened EditorInput

  /** The keys the controller tells apart; `Other` is any other key code. */
  datatype Key = Up | Down | Left | Right | PageDown | PageUp | F1 | F2 | F3 | Other(code: int)

  /** The editor record and the buffer it edits. */
  datatype Session = Session(view: View, buffer: BufferState)

  /** The editor record after a key that only moves, scrolls or switches a column or mode. */
  function ViewKey(v: View, key: Key, rows: nat, size: nat): View
  {
    var page := rows * v.BytesPerLine();
    match key
    case Up => HexResetPending(MoveCursor(v, -1, 0, rows, size))
    case Down => HexResetPending(MoveCursor(v, 1, 0, rows, size))
    case Left => HexResetPending(MoveCursor(v, 0, -1, rows, size))
    case Right => HexResetPending(MoveCursor(v, 0, 1, rows, size))
    case PageDown => HexResetPending(Scroll(v, page, rows, size))
    case PageUp => HexResetPending(Scroll(v, -page, rows, size))
    case F1 => ToggleDisplayMode(v, rows)
    case _ => HexResetPending(ToggleArea(v, size))
  }

  /** F2: save; a failed save changes nothing. */
  function SaveKey(s: Session, writeOk: bool): (Outcome<IoError>, Session)
  {
    var saved := s.buffer.Save(writeOk);
    if saved.0.Err? then (Fail(saved.0.error), s) else (Pass, s.(buffer := saved.1))
  }

  /** F3: reload and reset the editor; a failed load changes nothing. */
  function ReloadKey(s: Session, reread: Option<seq<uint8>>): (Outcome<IoError>, Session)
  {
    var loaded := s.buffer.Load(reread);
    if loaded.0.Fail? then (loaded.0, s) else (Pass, Session(ResetView(), loaded.1))
  }

  /** Any other key: an edit, with the byte it writes, if any. */
  function EditKey(s: Session, code: int, rows: nat): Session
  {
    var r := HandleChar(s.view, code, rows, s.buffer.Size());
    Session(r.view, ApplyWrite(s.buffer, r.write))
  }

  /** Whether the key goes to the editor as an edit. */
  predicate IsEdit(key: Key)
  {
    key.Other? && key.code != TAB
  }

  /** `main_controller_handle_input` on values. */
  function Step(s: Session, key: Key, rows: nat, reread: Option<seq<uint8>>, writeOk: bool): (Outcome<IoError>, Session)
  {
    if key.F2? then SaveKey(s, writeOk)
    else if key.F3? then ReloadKey(s, reread)
    else if IsEdit(key) then (Pass, EditKey(s, key.code, rows))
    else (Pass, s.(view := ViewKey(s.view, key, rows, s.buffer.Size())))
  }

  /** Keys that only move the cursor or the viewport. */
  predicate IsNavigation(key: Key)
  {
    key.Up? || key.Down? || key.Left? || key.Right? || key.PageDown? || key.PageUp?
  }

  /**
   * Moving, scrolling and switching keep the editor invariant; moving and
   * scrolling also keep the mode and the area and leave no partial input.
   */
  lemma ViewKeyKeepsInv(v: View, key: Key, rows: nat, size: nat)
    requires Inv(v, rows, size)
    ensures Inv(ViewKey(v, key, rows, size), rows, size)
    ensures IsNavigation(key) ==> NoPending(ViewKey(v, key, rows, size))
    ensures IsNavigation(key) ==> ViewKey(v, key, rows, size).displayMode == v.displayMode
    ensures IsNavigation(key) ==> ViewKey(v, key, rows, size).cursorArea == v.cursorArea
  {
    var page := rows * v.BytesPerLine();
    match key
    case Up => MoveCursorKeepsInv(v, -1, 0, rows, size);
    case Down => MoveCursorKeepsInv(v, 1, 0, rows, size);
    case Left => MoveCursorKeepsInv(v, 0, -1, rows, size);
    case Right => MoveCursorKeepsInv(v, 0, 1, rows, size);
    case PageDown => ScrollKeepsInv(v, page, rows, size);
    case PageUp => ScrollKeepsInv(v, -page, rows, size);
    case F1 => ToggleDisplayModeSpec(v, rows, size);
    case _ => ToggleAreaSpec(v, rows, size);
  }

  /** A reload leaves the reset editor, which fits any buffer, or changes nothing. */
  lemma ReloadKeepsInv(s: Session, rows: nat, reread: Option<seq<uint8>>)
    requires rows >= 1 && Inv(s.view, rows, s.buffer.Size())
    ensures Inv(ReloadKey(s, reread).1.view, rows, ReloadKey(s, reread).1.buffer.Size())
  {
    if reread.Some? {
      var r := ReloadKey(s, reread).1;
      assert r.view == ResetView() && r.buffer.Size() == |reread.value|;
      ResetInv(rows, |reread.value|);
    }
  }

  /** An edit keeps the editor invariant; the write keeps the size. */
  lemma EditKeepsInv(s: Session, code: int, rows: nat)
    requires Inv(s.view, rows, s.buffer.Size())
    ensures Inv(EditKey(s, code, rows).view, rows, EditKey(s, code, rows).buffer.Size())
  {
    HandleCharKeepsInv(s.view, code, rows, s.buffer.Size());
  }

  /** Every key keeps the editor invariant over the buffer's (possibly new) size. */
  lemma StepKeepsInv(s: Session, key: Key, rows: nat, reread: Option<seq<uint8>>, writeOk: bool)
    requires rows >= 1 && Inv(s.view, rows, s.buffer.Size())
    ensures Inv(Step(s, key, rows, reread, writeOk).1.view, rows, Step(s, key, rows, reread, writeOk).1.buffer.Size())
  {
    if key.F3? {
      ReloadKeepsInv(s, rows, reread);
    } else if IsEdit(key) {
      EditKeepsInv(s, key.code, rows);
    } else if !key.F2? {
      ViewKeyKeepsInv(s.view, key, rows, s.buffer.Size());
    }
  }

  /**
   * Only a failed save (no bytes, or the write failed) or a failed reload
   * fails, and a failure leaves the session as it was.
   */
  lemma StepFails(s: Session, key: Key, rows: nat, reread: Option<seq<uint8>>, writeOk: bool)
    ensures Step(s, key, rows, reread, writeOk).0.Fail? <==>
              (key.F2? && (s.buffer.storage.None? || !writeOk)) || (key.F3? && reread.None?)
    ensures Step(s, key, rows, reread, writeOk).0.Fail? ==> Step(s, key, rows, reread, writeOk).1 == s
  {
  }

  /**
   * Navigation leaves the buffer alone and discards every half-typed byte,
   * hex or binary; the cursor stays on an existing byte.
   */
  lemma NavigationSpec(s: Session, key: Key, rows: nat, reread: Option<seq<uint8>>, writeOk: bool)
    requires IsNavigation(key)
    requires rows >= 1 && Inv(s.view, rows, s.buffer.Size())
    ensures Step(s, key, rows, reread, writeOk).1.buffer == s.buffer
    ensures NoPending(Step(s, key, rows, reread, writeOk).1.view)
    ensures Step(s, key, rows, reread, writeOk).1.view.displayMode == s.view.displayMode
    ensures Step(s, key, rows, reread, writeOk).1.view.cursorArea == s.view.cursorArea
  {
    assert Step(s, key, rows, reread, writeOk).1 == s.(view := ViewKey(s.view, key, rows, s.buffer.Size()));
    ViewKeyKeepsInv(s.view, key, rows, s.buffer.Size());
  }

  /**
   * Tab switches between the hex and the ASCII column on the same byte and
   * drops a half-typed hex digit; a half-typed binary byte survives it.
   */
  lemma TabSpec(s: Session, rows: nat, reread: Option<seq<uint8>>, writeOk: bool)
    requires rows >= 1 && Inv(s.view, rows, s.buffer.Size())
    ensures Step(s, Other(TAB), rows, reread, writeOk).1.buffer == s.buffer
    ensures Step(s, Other(TAB), rows, reread, writeOk).1.view.cursorArea != s.view.cursorArea
    ensures Step(s, Other(TAB), rows, reread, writeOk).1.view.Index() == s.view.Index()
    ensures Step(s, Other(TAB), rows, reread, writeOk).1.view.hexPending == -1
    ensures Step(s, Other(TAB), rows, reread, writeOk).1.view.binPendingBits == s.view.binPendingBits
    ensures Step(s, Other(TAB), rows, reread, writeOk).1.view.binPendingValue == s.view.binPendingValue
  {
    ToggleAreaSpec(s.view, rows, s.buffer.Size());
  }

  /** F1 switches the display mode on the same byte and leaves the buffer alone. */
  lemma DisplayModeKeySpec(s: Session, rows: nat, reread: Option<seq<uint8>>, writeOk: bool)
    requires rows >= 1 && Inv(s.view, rows, s.buffer.Size())
    ensures Step(s, F1, rows, reread, writeOk).1.buffer == s.buffer
    ensures Step(s, F1, rows, reread, writeOk).1.view.displayMode != s.view.displayMode
    ensures Step(s, F1, rows, reread, writeOk).1.view.Index() == s.view.Index()
    ensures NoPending(Step(s, F1, rows, reread, writeOk).1.view)
  {
    ToggleDisplayModeSpec(s.view, rows, s.buffer.Size());
  }

  /** A successful F2 writes the bytes out, keeps them, and marks the buffer saved. */
  lemma SaveKeySpec(s: Session, rows: nat, reread: Option<seq<uint8>>)
    requires s.buffer.storage.Some?
    ensures Step(s, F2, rows, reread, true).0 == Pass
    ensures Step(s, F2, rows, reread, true).1.view == s.view
    ensures Step(s, F2, rows, reread, true).1.buffer.Bytes() == s.buffer.Bytes()
    ensures !Step(s, F2, rows, reread, true).1.buffer.edited
    ensures Step(s, F2, rows, reread, true).1.buffer.everChanged == s.buffer.everChanged
  {
  }

  /** A successful F3 replaces the bytes with the file's, clears both flags and resets the editor. */
  lemma ReloadKeySpec(s: Session, rows: nat, data: seq<uint8>, writeOk: bool)
    ensures Step(s, F3, rows, Some(data), writeOk).0 == Pass
    ensures Step(s, F3, rows, Some(data), writeOk).1.buffer.Bytes() == data
    ensures !Step(s, F3, rows, Some(data), writeOk).1.buffer.edited
    ensures !Step(s, F3, rows, Some(data), writeOk).1.buffer.everChanged
    ensures Step(s, F3, rows, Some(data), writeOk).1.view.Index() == 0
    ensures NoPending(Step(s, F3, rows, Some(data), writeOk).1.view)
    ensures Step(s, F3, rows, Some(data), writeOk).1.view == ResetView()
  {
  }

  /**
   * Apart from a reload, a key changes at most the byte under the cursor,
   * never the size, and never clears `everChanged`.
   */
  lemma StepChangesAtMostCursorByte(s: Session, key: Key, rows: nat, reread: Option<seq<uint8>>, writeOk: bool, i: nat)
    requires rows >= 1 && Inv(s.view, rows, s.buffer.Size())
    requires !key.F3? && i != s.view.Index()
    ensures Step(s, key, rows, reread, writeOk).1.buffer.Size() == s.buffer.Size()
    ensures Step(s, key, rows, reread, writeOk).1.buffer.GetByte(i) == s.buffer.GetByte(i)
    ensures s.buffer.everChanged ==> Step(s, key, rows, reread, writeOk).1.buffer.everChanged
  {
    match key
    case Other(code) =>
      if code != TAB {
        var r := HandleChar(s.view, code, rows, s.buffer.Size());
        HandleCharKeepsInv(s.view, code, rows, s.buffer.Size());
        if r.write.Some? {
          GetAfterSet(s.buffer, r.write.value.index, r.write.value.value, i);
          SetByteFlags(s.buffer, r.write.value.index, r.write.value.value);
        }
      }
    case _ =>
  }

  /** The controller: the buffer and the editor over it. */
  class MainController {
    const buffer: DataBuffer
    const editor: Editor

    /** The editor edits this controller's buffer and keeps its invariant. */
    ghost predicate Valid()
      reads this, editor, buffer
    {
      editor.buffer == buffer && editor.Valid()
    }

    /** The controller as a value. */
    function Snapshot(): Session
      reads this, editor, buffer, buffer.bytes
      requires buffer.Valid()
    {
      Session(editor.State(), buffer.State())
    }

    /** A controller over `editor` and the buffer it edits. */
    constructor (editor: Editor)
      requires editor.Valid()
      ensures this.editor == editor && Valid()
    {
      this.buffer := editor.buffer;
      this.editor := editor;
    }

    /**
     * `main_controller_init` after its buffer is set up: reads the file
     * into a fresh buffer and puts a fresh editor at the reset state.
     */
    static method Init(read: Option<seq<uint8>>, rows: nat) returns (r: Outcome<IoError>, c: MainController?)
      requires rows >= 1
      ensures r.Pass? <==> read.Some?
      ensures r.Fail? ==> c == null
      ensures r.Pass? ==> c != null && c.Valid() && c.editor.rows == rows
      ensures r.Pass? ==> c.Snapshot() == Session(ResetView(), BufferState(read, false, false))
    {
      var buffer := new DataBuffer.Init();
      r := buffer.Load(read);
      if r.Fail? {
        return r, null;
      }
      var editor := new Editor(buffer, rows);
      c := new MainController(editor);
    }

    /** An arrow key: `editor_move_cursor`, then no half-typed hex digit. */
    method MoveInput(deltaY: int, deltaX: int)
      requires Valid()
      modifies editor
      ensures Valid()
      ensures editor.State() == HexResetPending(MoveCursor(old(editor.State()), deltaY, deltaX, editor.rows, buffer.size))
    {
      editor.MoveCursor(deltaY, deltaX);
      editor.hexPending := -1;
    }

    /** A page key: `editor_scroll` by a page, then no half-typed hex digit. */
    method ScrollInput(delta: int)
      requires Valid()
      modifies editor
      ensures Valid()
      ensures editor.State() == HexResetPending(Scroll(old(editor.State()), delta, editor.rows, buffer.size))
    {
      editor.Scroll(delta);
      editor.hexPending := -1;
    }

    /** Tab: `editor_toggle_area`, then no half-typed hex digit. */
    method TabInput()
      requires Valid()
      modifies editor
      ensures Valid()
      ensures editor.State() == HexResetPending(ToggleArea(old(editor.State()), buffer.size))
    {
      editor.ToggleArea();
      editor.hexPending := -1;
    }

    /** The keys that only move, scroll or switch. */
    method ViewKeyInput(key: Key)
      requires Valid() && !key.F2? && !key.F3? && !IsEdit(key)
      modifies editor
      ensures Valid()
      ensures editor.State() == ViewKey(old(editor.State()), key, editor.rows, buffer.size)
    {
      var page := editor.rows * editor.strategy.BytesPerLine();
      match key {
        case Up => MoveInput(-1, 0);
        case Down => MoveInput(1, 0);
        case Left => MoveInput(0, -1);
        case Right => MoveInput(0, 1);
        case PageDown => ScrollInput(page);
        case PageUp => ScrollInput(-page);
        case F1 => editor.ToggleDisplayMode();
        case Other(_) => TabInput();
      }
    }

    /** `main_controller_handle_input`. */
    method HandleInput(key: Key, reread: Option<seq<uint8>>, writeOk: bool) returns (r: Outcome<IoError>)
      requires Valid()
      modifies editor, buffer, buffer.bytes
      ensures Valid()
      ensures (r, Snapshot()) == Step(old(Snapshot()), key, editor.rows, reread, writeOk)
    {
      r := Pass;
      if key.F2? {
        var saved := buffer.Save(writeOk);
        if saved.Err? {
          r := Fail(saved.error);
        }
      } else if key.F3? {
        r := buffer.Load(reread);
        if r.Pass? {
          editor.Reset();
        }
      } else if IsEdit(key) {
        editor.HandleChar(key.code);
      } else {
        ViewKeyInput(key);
      }
    }
  }
}
