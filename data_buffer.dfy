/**
 * The byte buffer: the loaded file's bytes, their count, and two flags.
 * `edited` says the bytes differ from what was last loaded or saved;
 * `everChanged` says some write has changed a byte since the last load.
 * `BufferState` is the buffer as a value and its operations are the
 * specification; `DataBuffer` is the record the editor updates in place.
 */
module DataBuffers {
  import opened Bytes
  import opened Wrappers

  /** Why a load or save did not complete (the source ends the process on each). */
  datatype IoError = ReadFailed | WriteFailed | NoBytes

  /** The byte at `i`, or 0 past the end: the editor's reading of missing bytes. */
  function ByteAt(bytes: seq<uint8>, i: nat): uint8
  {
    if i < |bytes| then bytes[i] else 0
  }

  /** A buffer as a value. `storage` is `None` while no bytes are allocated. */
  datatype BufferState = BufferState(storage: Option<seq<uint8>>, edited: bool, everChanged: bool)
  {
    function Bytes(): seq<uint8>
    {
      if storage.Some? then storage.value else []
    }

    function Size(): nat
    {
      |Bytes()|
    }

    /** `data_buffer_get_byte`. */
    function GetByte(index: nat): uint8
    {
      if storage.None? || index >= Size() then 0 else Bytes()[index]
    }

    /** `data_buffer_set_byte`. */
    function SetByte(index: nat, value: uint8): BufferState
    {
      if storage.None? || index >= Size() then this
      else if Bytes()[index] == value then this
      else BufferState(Some(Bytes()[index := value]), true, true)
    }

    /** `data_buffer_get_range`: the copied bytes, or `None` when nothing is copied. */
    function GetRange(start: nat, end: nat): Option<seq<uint8>>
    {
      if storage.None? || start >= Size() || end > Size() || start >= end then None
      else Some(Bytes()[start..end])
    }

    /** `data_buffer_load_file`, given what reading the file produced. */
    function Load(read: Option<seq<uint8>>): (Outcome<IoError>, BufferState)
    {
      match read
      case None => (Fail(ReadFailed), this)
      case Some(data) => (Pass, BufferState(Some(data), false, false))
    }

    /** `data_buffer_save_file`: the bytes written, given whether the write succeeded. */
    function Save(writeOk: bool): (Result<seq<uint8>, IoError>, BufferState)
    {
      if storage.None? then (Err(NoBytes), this)
      else if !writeOk then (Err(WriteFailed), this)
      else (Ok(Bytes()), this.(edited := false))
    }
  }

  /** The buffer `data_buffer_init` and `data_buffer_deinit` leave. */
  function EmptyBuffer(): (b: BufferState)
    ensures b.Size() == 0 && !b.edited && !b.everChanged
  {
    BufferState(None, false, false)
  }

  /** A write out of range, or with the value already there, changes nothing, flags included. */
  lemma SetByteNoOp(b: BufferState, index: nat, value: uint8)
    requires index >= b.Size() || b.Bytes()[index] == value
    ensures b.SetByte(index, value) == b
  {
  }

  /**
   * A write of a new value in range changes exactly that byte, keeps the
   * size, and sets both flags.
   */
  lemma SetByteChanges(b: BufferState, index: nat, value: uint8)
    requires index < b.Size() && b.Bytes()[index] != value
    ensures b.SetByte(index, value).Size() == b.Size()
    ensures b.SetByte(index, value).Bytes()[index] == value
    ensures forall i :: 0 <= i < b.Size() && i != index ==> b.SetByte(index, value).Bytes()[i] == b.Bytes()[i]
    ensures b.SetByte(index, value).edited && b.SetByte(index, value).everChanged
  {
  }

  /** Reading after a write sees the written value at its index and the old bytes elsewhere. */
  lemma GetAfterSet(b: BufferState, index: nat, value: uint8, j: nat)
    ensures b.SetByte(index, value).GetByte(j) == (if j == index && index < b.Size() then value else b.GetByte(j))
  {
  }

  /** `GetByte` is the zero-padded reading of the bytes. */
  lemma GetByteIsByteAt(b: BufferState, index: nat)
    ensures b.GetByte(index) == ByteAt(b.Bytes(), index)
  {
  }

  /** A write never clears a flag, and sets `edited` only together with `everChanged`. */
  lemma SetByteFlags(b: BufferState, index: nat, value: uint8)
    ensures b.edited ==> b.SetByte(index, value).edited
    ensures b.everChanged ==> b.SetByte(index, value).everChanged
    ensures b.SetByte(index, value).edited != b.edited ==> b.SetByte(index, value).everChanged
    ensures b.SetByte(index, value).Bytes() != b.Bytes() <==> index < b.Size() && b.Bytes()[index] != value
  {
    if index < b.Size() && b.Bytes()[index] != value {
      assert b.SetByte(index, value).Bytes()[index] != b.Bytes()[index];
    }
  }

  /** A valid range copies exactly `bytes[start..end)`; any other range copies nothing. */
  lemma GetRangeSpec(b: BufferState, start: nat, end: nat)
    ensures b.GetRange(start, end).Some? <==> start < end <= b.Size()
    ensures b.GetRange(start, end).Some? ==>
              |b.GetRange(start, end).value| == end - start
              && forall k :: 0 <= k < end - start ==> b.GetRange(start, end).value[k] == b.GetByte(start + k)
  {
  }

  /**
   * Saving what was just loaded writes the loaded bytes back unchanged, and
   * both the load and the save leave the buffer not edited.
   */
  lemma LoadSaveRoundTrip(b: BufferState, data: seq<uint8>)
    ensures b.Load(Some(data)).0 == Pass
    ensures !b.Load(Some(data)).1.edited && !b.Load(Some(data)).1.everChanged
    ensures b.Load(Some(data)).1.Save(true).0 == Ok(data)
    ensures !b.Load(Some(data)).1.Save(true).1.edited
    ensures b.Load(Some(data)).1.Save(true).1.Bytes() == data
  {
  }

  /** A save keeps the bytes and `everChanged`; a failed save or load changes nothing. */
  lemma SaveKeepsHistory(b: BufferState, writeOk: bool)
    ensures b.Save(writeOk).1.Bytes() == b.Bytes()
    ensures b.Save(writeOk).1.everChanged == b.everChanged
    ensures b.Save(writeOk).0.Ok? <==> b.storage.Some? && writeOk
    ensures b.Save(writeOk).0.Err? ==> b.Save(writeOk).1 == b
    ensures b.Load(None) == (Fail(ReadFailed), b)
  {
  }

  /** The buffer record, updated in place. `bytes == null` is the NULL pointer. */
  class DataBuffer {
    var bytes: array?<uint8>
    var size: nat
    var edited: bool
    var everChanged: bool

    /** `size` counts the allocated bytes; no bytes, no size. */
    ghost predicate Valid()
      reads this
    {
      (bytes == null ==> size == 0) && (bytes != null ==> size == bytes.Length)
    }

    /** The buffer as a value. */
    function State(): (b: BufferState)
      reads this, bytes
      requires Valid()
      ensures b.Size() == size
    {
      BufferState(if bytes == null then None else Some(bytes[..]), edited, everChanged)
    }

    /** `data_buffer_init`: an empty buffer with both flags clear. */
    constructor Init()
      ensures Valid() && State() == EmptyBuffer()
    {
      bytes := null;
      size := 0;
      edited := false;
      everChanged := false;
    }

    /** `data_buffer_deinit`: drops the bytes and clears both flags. */
    method Deinit()
      modifies this
      ensures Valid() && State() == EmptyBuffer()
    {
      bytes := null;
      size := 0;
      edited := false;
      everChanged := false;
    }

    /** `data_buffer_get_byte`: the byte at `index`, or 0 when out of range or unallocated. */
    function GetByte(index: nat): (r: uint8)
      reads this, bytes
      requires Valid()
      ensures r == State().GetByte(index)
      ensures r == ByteAt(State().Bytes(), index)
    {
      if bytes == null || index >= size then 0 else bytes[index]
    }

    /** `data_buffer_set_byte`. */
    method SetByte(index: nat, value: uint8)
      requires Valid()
      modifies this, bytes
      ensures Valid() && bytes == old(bytes) && size == old(size)
      ensures State() == old(State()).SetByte(index, value)
    {
      if bytes == null || index >= size {
        return;
      }
      if bytes[index] == value {
        return;
      }
      bytes[index] := value;
      edited := true;
      everChanged := true;
    }

    /** `data_buffer_get_range`: copies `bytes[start..end)` into `dest`, or leaves `dest` alone. */
    method GetRange(start: nat, end: nat, dest: array<uint8>)
      requires Valid() && dest != bytes
      requires State().GetRange(start, end).Some? ==> dest.Length >= end - start
      modifies dest
      ensures State().GetRange(start, end).None? ==> dest[..] == old(dest[..])
      ensures State().GetRange(start, end).Some? ==>
                dest[..end - start] == State().GetRange(start, end).value
                && dest[end - start..] == old(dest[end - start..])
    {
      if bytes == null || start >= size || end > size || start >= end {
        return;
      }
      forall k | 0 <= k < end - start {
        dest[k] := bytes[start + k];
      }
    }

    /** `data_buffer_load_file`, given what reading the file produced. */
    method Load(read: Option<seq<uint8>>) returns (r: Outcome<IoError>)
      requires Valid()
      modifies this
      ensures Valid()
      ensures (r, State()) == old(State()).Load(read)
      ensures r.Pass? ==> fresh(bytes)
      ensures r.Fail? ==> bytes == old(bytes)
    {
      if read.None? {
        return Fail(ReadFailed);
      }
      var data := read.value;
      Deinit();
      bytes := new uint8[|data|](i requires 0 <= i < |data| => data[i]);
      size := |data|;
      edited := false;
      everChanged := false;
      assert bytes[..] == data;
      return Pass;
    }

    /** `data_buffer_save_file`: the bytes handed to the writer, given whether it succeeded. */
    method Save(writeOk: bool) returns (r: Result<seq<uint8>, IoError>)
      requires Valid()
      modifies this
      ensures Valid() && bytes == old(bytes) && size == old(size)
      ensures (r, State()) == old(State()).Save(writeOk)
    {
      if bytes == null {
        return Err(NoBytes);
      }
      if !writeOk {
        return Err(WriteFailed);
      }
      r := Ok(bytes[..]);
      edited := false;
    }
  }
}
