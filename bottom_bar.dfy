/**
 * The values the status bar shows for the byte under the cursor: the file
 * state text, the byte as signed and unsigned 8-bit values, and the four
 * bytes from the cursor read little-endian as signed and unsigned 32-bit
 * values, missing bytes past the end counting as zero. Drawing the bar is
 * not modelled; the computation of what it shows is.
 */
module BottomBar {
  import opened Bytes
  import opened Wrappers
  import opened DataBuffers
  import opened EditorRecord
  import opened EditorInput

  /** 256^n. */
  function Pow256(n: nat): (r: nat)
    ensures r >= 1
  {
    if n == 0 then 1 else 256 * Pow256(n - 1)
  }

  const TWO_POW_31: int := 0x8000_0000
  const TWO_POW_32: int := 0x1_0000_0000

  /**
   * The value of the `n` bytes from `index`, least significant first, with
   * the bytes past the end of `bytes` read as zero.
   */
  function LeValue(bytes: seq<uint8>, index: nat, n: nat): nat
    decreases n
  {
    if n == 0 then 0 else ByteAt(bytes, index) + 256 * LeValue(bytes, index + 1, n - 1)
  }

  /** Byte `k` of `v`, counting from the least significant: `(v >> 8k) & 0xFF`. */
  function ByteOf(v: nat, k: nat): uint8
    decreases k
  {
    if k == 0 then v % 256 else ByteOf(v / 256, k - 1)
  }

  /** n bytes hold a value below 256^n. */
  lemma {:induction false} LeValueBound(bytes: seq<uint8>, index: nat, n: nat)
    ensures LeValue(bytes, index, n) < Pow256(n)
    decreases n
  {
    if n > 0 {
      LeValueBound(bytes, index + 1, n - 1);
    }
  }

  /** Reading one more byte adds it at the next power of 256: the step of the reading loop. */
  lemma {:induction false} LeValueStep(bytes: seq<uint8>, index: nat, i: nat)
    ensures LeValue(bytes, index, i + 1) == LeValue(bytes, index, i) + ByteAt(bytes, index + i) * Pow256(i)
    decreases i
  {
    if i > 0 {
      LeValueStep(bytes, index + 1, i - 1);
    }
  }

  /** Byte `k` of the value read is the byte at `index + k`: the value decodes back to the bytes. */
  lemma {:induction false} LeValueBytes(bytes: seq<uint8>, index: nat, n: nat, k: nat)
    requires k < n
    ensures ByteOf(LeValue(bytes, index, n), k) == ByteAt(bytes, index + k)
    decreases k
  {
    var rest := LeValue(bytes, index + 1, n - 1);
    assert LeValue(bytes, index, n) / 256 == rest;
    if k > 0 {
      LeValueBytes(bytes, index + 1, n - 1, k - 1);
    }
  }

  /** Reading wholly past the end gives zero. */
  lemma {:induction false} LeValuePastEnd(bytes: seq<uint8>, index: nat, n: nat)
    requires index >= |bytes|
    ensures LeValue(bytes, index, n) == 0
    decreases n
  {
    if n > 0 {
      LeValuePastEnd(bytes, index + 1, n - 1);
    }
  }

  /**
   * `read_unsigned_le`: ORs byte `i` in at bit `8 * i`. Each shifted byte
   * lies above the bits gathered so far, so the OR adds it.
   */
  method ReadUnsignedLe(buffer: DataBuffer, index: nat, byteCount: int) returns (value: nat)
    requires buffer.Valid() && byteCount <= 8
    ensures byteCount <= 0 ==> value == 0
    ensures byteCount > 0 ==> value == LeValue(buffer.State().Bytes(), index, byteCount)
    ensures byteCount > 0 ==> value < Pow256(byteCount)
  {
    ghost var bytes := buffer.State().Bytes();
    value := 0;
    var i := 0;
    while i < byteCount
      invariant 0 <= i && (byteCount > 0 ==> i <= byteCount) && (byteCount <= 0 ==> i == 0)
      invariant value == LeValue(bytes, index, i)
    {
      var currentIndex := index + i;
      var currentByte: uint8 := 0;
      if currentIndex < buffer.size {
        currentByte := buffer.bytes[currentIndex];
      }
      assert currentByte == ByteAt(bytes, currentIndex);
      LeValueStep(bytes, index, i);
      value := value + currentByte * Pow256(i);
      i := i + 1;
    }
    LeValueBound(bytes, index, i);
  }

  /** `(signed char)u`: the value in -128..127 that is congruent to `u` modulo 256. */
  function ToSigned8(u: uint8): (r: int)
    ensures -128 <= r < 128 && r % 256 == u
    ensures r < 0 <==> u >= 128
  {
    if u < 128 then u else u - 256
  }

  /** `(uint32_t)raw`: the low 32 bits. */
  function ToUnsigned32(raw: nat): (r: nat)
    ensures r < TWO_POW_32 && (raw - r) % TWO_POW_32 == 0
  {
    raw % TWO_POW_32
  }

  /** `(int32_t)raw`: the value in -2^31..2^31-1 congruent to `raw` modulo 2^32. */
  function ToSigned32(raw: nat): (r: int)
    ensures -TWO_POW_31 <= r < TWO_POW_31 && (raw - r) % TWO_POW_32 == 0
    ensures r < 0 <==> ToUnsigned32(raw) >= TWO_POW_31
  {
    var u := raw % TWO_POW_32;
    if u < TWO_POW_31 then u else u - TWO_POW_32
  }

  /** The file state text. */
  function StateText(everChanged: bool, edited: bool): string
  {
    if !everChanged then "NOTHING changed"
    else if edited then "file not saved"
    else "file saved"
  }

  /** What the status bar shows. */
  datatype StatusInfo = StatusInfo(stateText: string, signed8: int, unsigned8: uint8, signed32: int, unsigned32: nat)

  /** The status bar's values for an editor record over a buffer. */
  function Status(v: View, b: BufferState): StatusInfo
  {
    var index := v.Index();
    var byteValue := if index < b.Size() then b.Bytes()[index] else 0;
    var raw := LeValue(b.Bytes(), index, 4);
    StatusInfo(StateText(b.everChanged, b.edited), ToSigned8(byteValue), byteValue, ToSigned32(raw), ToUnsigned32(raw))
  }

  /**
   * The values computed by `bottom_bar_draw` before it prints them: the
   * state text, the byte under the cursor, and the 32-bit reading.
   */
  method ComputeStatus(editor: Editor) returns (s: StatusInfo)
    requires editor.Shape()
    ensures s == Status(editor.State(), editor.buffer.State())
  {
    var buffer := editor.buffer;
    var stateText: string;
    if !buffer.everChanged {
      stateText := "NOTHING changed";
    } else if buffer.edited {
      stateText := "file not saved";
    } else {
      stateText := "file saved";
    }
    var absoluteIndex := editor.Idx(editor.cursorY, editor.cursorX);
    var byteValue: uint8 := 0;
    if absoluteIndex < buffer.size {
      byteValue := buffer.bytes[absoluteIndex];
    }
    var rawUnsigned32 := ReadUnsignedLe(buffer, absoluteIndex, 4);
    var signedValue8 := if byteValue < 128 then byteValue else byteValue - 256;
    var unsignedValue8 := byteValue;
    var low32 := rawUnsigned32 % TWO_POW_32;
    var signedValue32 := if low32 < TWO_POW_31 then low32 else low32 - TWO_POW_32;
    var unsignedValue32 := low32;
    s := StatusInfo(stateText, signedValue8, unsignedValue8, signedValue32, unsignedValue32);
  }

  /**
   * What the status bar shows: the byte under the cursor (0 past the end)
   * both ways, and four bytes whose 32-bit value is their little-endian
   * reading, so the unsigned 32-bit value decodes back to the four bytes at
   * the cursor.
   */
  lemma StatusSpec(v: View, b: BufferState)
    ensures Status(v, b).unsigned8 == b.GetByte(v.Index())
    ensures Status(v, b).signed8 % 256 == b.GetByte(v.Index())
    ensures Status(v, b).unsigned32 == LeValue(b.Bytes(), v.Index(), 4)
    ensures forall k :: 0 <= k < 4 ==> ByteOf(Status(v, b).unsigned32, k) == b.GetByte(v.Index() + k)
    ensures ByteOf(Status(v, b).unsigned32, 0) == Status(v, b).unsigned8
    ensures (Status(v, b).unsigned32 - Status(v, b).signed32) % TWO_POW_32 == 0
  {
    var raw := LeValue(b.Bytes(), v.Index(), 4);
    LeValueBound(b.Bytes(), v.Index(), 4);
    assert Pow256(2) == 0x1_0000;
    assert Pow256(4) == TWO_POW_32;
    forall k | 0 <= k < 4
      ensures ByteOf(raw, k) == b.GetByte(v.Index() + k)
    {
      LeValueBytes(b.Bytes(), v.Index(), 4, k);
    }
  }

  /**
   * The state text follows the buffer's history: nothing changed after a
   * load, not saved after a write that changed a byte, saved after a
   * successful save of a changed buffer.
   */
  lemma StateTextHistory(b: BufferState, data: seq<uint8>, index: nat, value: uint8)
    ensures StateText(b.Load(Some(data)).1.everChanged, b.Load(Some(data)).1.edited) == "NOTHING changed"
    ensures index < b.Size() && b.Bytes()[index] != value ==>
              StateText(b.SetByte(index, value).everChanged, b.SetByte(index, value).edited) == "file not saved"
    ensures b.everChanged && b.storage.Some? ==>
              StateText(b.Save(true).1.everChanged, b.Save(true).1.edited) == "file saved"
  {
    if index < b.Size() && b.Bytes()[index] != value {
      SetByteChanges(b, index, value);
    }
  }
}
