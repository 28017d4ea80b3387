/**
 * The synchronous record reader and updater bound to one open handle of one
 * data file of the journal.  Reads consult the journal's map of in-flight
 * writes before the file; a location's size and type are read from the
 * record header on first use and cached in the location.
 */
module Accessor {
  import opened Faults
  import opened Codec
  import opened RandomAccess

  /**
   * `Location.NOT_SET`: the size of a location whose header has not been
   * read yet.  Its value is fixed by `Location`, which is not part of this
   * model, so it is left unspecified here.
   */
  const NOT_SET: int

  /** The address of one record, with its size and type once known. */
  class Location {
    const dataFileId: int
    const offset: int
    var size: int
    var typ: byte
    /** The answer of `Location.isValid()`, whose rule is not part of this model. */
    const valid: bool

    constructor (dataFileId: int, offset: int, size: int, typ: byte, valid: bool)
      ensures this.dataFileId == dataFileId && this.offset == offset && this.valid == valid
      ensures this.size == size && this.typ == typ
    {
      this.dataFileId, this.offset, this.valid := dataFileId, offset, valid;
      this.size, this.typ := size, typ;
    }
  }

  /** Size and type of a record as the writer assigned them. */
  datatype Details = Details(size: int, typ: byte)

  /** A write the appender has accepted but not yet made durable: its location and its payload. */
  datatype WriteCommand = WriteCommand(location: Details, data: seq<byte>)

  /** The journal's map of in-flight writes, shared with the appender, which alone changes it. */
  class InflightWrites {
    var writes: map<Location, WriteCommand>

    constructor (writes: map<Location, WriteCommand>)
      ensures this.writes == writes
    {
      this.writes := writes;
    }
  }

  /** One segment of the journal. */
  class DataFile {
    const dataFileId: int

    constructor (dataFileId: int)
      ensures this.dataFileId == dataFileId
    {
      this.dataFileId := dataFileId;
    }
  }

  function Lookup(writes: map<Location, WriteCommand>, location: Location): (r: Option<WriteCommand>)
    ensures r.Some? <==> location in writes
    ensures r.Some? ==> r.value == writes[location]
  {
    if location in writes then Some(writes[location]) else None
  }

  /**
   * What a call leaves behind: its result, the file position, and the
   * size and type of the location it was given.
   */
  datatype Outcome<+T> = Outcome(result: Result<T>, pos: nat, size: int, typ: byte)

  /**
   * `seek(at)`, then `setSize(readInt())`, then `setType(readByte())`: the
   * size is cached as soon as the length is read, before the type byte is.
   */
  function ReadHeaderSpec(bytes: seq<byte>, at: nat, size: int, typ: byte): (o: Outcome<()>)
    ensures o.result.Ok? <==> at + HEADER_SIZE <= |bytes|
    ensures o.result.Err? ==> o.result.fault == EndOfFile
    ensures at + 4 <= |bytes| ==> o.size == BE32(bytes[at..at + 4])
    ensures at + 4 > |bytes| ==> o.size == size && o.typ == typ
    ensures o.result.Ok? ==> o.typ == bytes[at + 4] && o.pos == at + HEADER_SIZE
    ensures o.result.Err? ==> o.typ == typ
  {
    if at + 4 > |bytes| then
      Outcome(Err(EndOfFile), at + |Available(bytes, at, 4)|, size, typ)
    else if at + HEADER_SIZE > |bytes| then
      Outcome(Err(EndOfFile), |bytes|, BE32(bytes[at..at + 4]), typ)
    else
      Outcome(Ok(()), at + HEADER_SIZE, BE32(bytes[at..at + 4]), bytes[at + 4])
  }

  /** `seek(offset)` followed by the header read: a negative offset is refused before anything is read. */
  function SeekHeaderSpec(bytes: seq<byte>, pos: nat, offset: int, size: int, typ: byte): (o: Outcome<()>)
    ensures offset < 0 ==> o == Outcome(Err(NegativeSeek), pos, size, typ)
  {
    if offset < 0 then Outcome(Err(NegativeSeek), pos, size, typ)
    else ReadHeaderSpec(bytes, offset, size, typ)
  }

  /**
   * The payload read once the position stands at `at`: an array of
   * `size - HEADER_SIZE` bytes, computed in 32-bit arithmetic, filled from
   * the file.  A negative length fails the allocation, which readRecord
   * reports as an invalid location.
   */
  function ReadPayloadSpec(bytes: seq<byte>, at: nat, size: int, typ: byte): (o: Outcome<seq<byte>>)
    ensures o.size == size && o.typ == typ
    ensures o.result.Ok? ==> |o.result.value| == Wrap32(size - HEADER_SIZE)
  {
    var n := Wrap32(size - HEADER_SIZE);
    if n < 0 then
      Outcome(Err(InvalidLocation), at, size, typ)
    else
      var got := Available(bytes, at, n);
      Outcome(if |got| == n then Ok(got) else Err(EndOfFile), at + |got|, size, typ)
  }

  /** readRecord, on the state it reads: the location's validity and fields, the overlay entry, the file. */
  function ReadRecordSpec(valid: bool, hit: Option<WriteCommand>, bytes: seq<byte>, pos: nat,
                          offset: int, size: int, typ: byte): (o: Outcome<seq<byte>>)
  {
    if !valid then
      Outcome(Err(InvalidLocation), pos, size, typ)
    else if hit.Some? then
      Outcome(Ok(hit.value.data), pos, size, typ)
    else if size == NOT_SET then
      var h := SeekHeaderSpec(bytes, pos, offset, size, typ);
      if h.result.Err? then Outcome(Err(h.result.fault), h.pos, h.size, h.typ)
      else ReadPayloadSpec(bytes, h.pos, h.size, h.typ)
    else if HEADER_SIZE + offset < 0 then
      Outcome(Err(NegativeSeek), pos, size, typ)
    else
      ReadPayloadSpec(bytes, HEADER_SIZE + offset, size, typ)
  }

  /** readLocationDetails: no validity check; the overlay entry's details, else the header at the offset. */
  function ReadLocationDetailsSpec(hit: Option<WriteCommand>, bytes: seq<byte>, pos: nat,
                                   offset: int, size: int, typ: byte): (o: Outcome<()>)
  {
    if hit.Some? then
      Outcome(Ok(()), pos, hit.value.location.size, hit.value.location.typ)
    else
      SeekHeaderSpec(bytes, pos, offset, size, typ)
  }

  /** The number of bytes updateRecord writes: the data, cut to the record's total size. */
  function PatchLength(dataLength: nat, size: int): (n: int)
    ensures n <= dataLength && n <= size
    ensures n == dataLength || n == size
  {
    Min(dataLength, size)
  }

  /** What updateRecord leaves behind: its result, the file's bytes and the file position. */
  datatype FileUpdate = FileUpdate(result: Result<()>, bytes: seq<byte>, pos: nat)

  /** updateRecord: seek past the header, then write the first `PatchLength` bytes of the data. */
  function UpdateSpec(bytes: seq<byte>, pos: nat, offset: int, size: int, data: seq<byte>): (u: FileUpdate)
  {
    if HEADER_SIZE + offset < 0 then
      FileUpdate(Err(NegativeSeek), bytes, pos)
    else
      var at := HEADER_SIZE + offset;
      var n := PatchLength(|data|, size);
      if n < 0 then FileUpdate(Err(IndexOutOfBounds), bytes, at)
      else FileUpdate(Ok(()), Overwrite(bytes, at, data[..n]), at + n)
  }

  class DataFileAccessor {
    const dataFile: DataFile
    const inflightWrites: InflightWrites
    const file: RandomAccessFile
    var disposed: bool
    /** How many times the handle was given back to the data file for closing. */
    ghost var closeCalls: nat

    ghost predicate Valid()
      reads this
    {
      closeCalls == if disposed then 1 else 0
    }

    /** Binds the accessor to `dataFile`; `file` is the handle the data file opened for it. */
    constructor (inflightWrites: InflightWrites, dataFile: DataFile, file: RandomAccessFile)
      ensures Valid() && !disposed
      ensures this.inflightWrites == inflightWrites && this.dataFile == dataFile && this.file == file
    {
      this.dataFile, this.inflightWrites, this.file := dataFile, inflightWrites, file;
      disposed := false;
      closeCalls := 0;
    }

    /** The data file this accessor was bound to when it was built. */
    function GetDataFile(): (d: DataFile)
      ensures d == dataFile
    {
      dataFile
    }

    /**
     * The first call marks the accessor disposed and gives the handle back
     * to the data file, ignoring a failure to close it; later calls do nothing.
     */
    method Dispose()
      requires Valid()
      modifies this`disposed, this`closeCalls
      ensures Valid() && disposed && closeCalls == 1
      ensures old(disposed) ==> closeCalls == old(closeCalls)
    {
      if disposed {
        return;
      }
      disposed := true;
      closeCalls := closeCalls + 1;
    }

    method ReadRecord(location: Location) returns (r: Result<seq<byte>>)
      modifies file`pos, location`size, location`typ
      ensures var o := ReadRecordSpec(location.valid, Lookup(inflightWrites.writes, location), file.bytes,
                                       old(file.pos), location.offset, old(location.size), old(location.typ));
        r == o.result && file.pos == o.pos && location.size == o.size && location.typ == o.typ
    {
      if !location.valid {
        return Err(InvalidLocation);
      }
      if location in inflightWrites.writes {
        return Ok(inflightWrites.writes[location].data);
      }
      if location.size == NOT_SET {
        var header := ReadHeader(location);
        if header.Err? {
          return Err(header.fault);
        }
      } else {
        var sought := file.Seek(HEADER_SIZE + location.offset);
        if sought.Err? {
          return Err(sought.fault);
        }
      }
      r := ReadPayload(location);
    }

    /** Seeks to the record and caches its length, then its type, in the location. */
    method ReadHeader(location: Location) returns (r: Result<()>)
      modifies file`pos, location`size, location`typ
      ensures var o := SeekHeaderSpec(file.bytes, old(file.pos), location.offset, old(location.size), old(location.typ));
        r == o.result && file.pos == o.pos && location.size == o.size && location.typ == o.typ
    {
      r := file.Seek(location.offset);
      if r.Err? {
        return;
      }
      var size := file.ReadInt();
      if size.Err? {
        return Err(size.fault);
      }
      location.size := size.value;
      var typ := file.ReadByte();
      if typ.Err? {
        return Err(typ.fault);
      }
      location.typ := typ.value;
    }

    /** Reads the payload of a record whose header the position has just passed. */
    method ReadPayload(location: Location) returns (r: Result<seq<byte>>)
      modifies file`pos
      ensures r == ReadPayloadSpec(file.bytes, old(file.pos), location.size, location.typ).result
      ensures file.pos == ReadPayloadSpec(file.bytes, old(file.pos), location.size, location.typ).pos
    {
      var n := Wrap32(location.size - HEADER_SIZE);
      if n < 0 {
        // the negative array size is an unchecked exception, rethrown as an invalid location
        return Err(InvalidLocation);
      }
      var data := new byte[n];
      var filled := file.ReadFully(data);
      if filled.Err? {
        return Err(filled.fault);
      }
      assert data[..] == Available(file.bytes, old(file.pos), n);
      r := Ok(data[..]);
    }

    /** A raw read of `data.Length` bytes at `offset`: no overlay, no header. */
    method Read(offset: int, data: array<byte>) returns (r: Result<()>)
      modifies file`pos, data
      ensures offset < 0 ==> r == Err(NegativeSeek) && file.pos == old(file.pos) && data[..] == old(data[..])
      ensures offset >= 0 ==>
        var got := Available(file.bytes, offset, data.Length);
        && data[..] == got + old(data[..])[|got|..]
        && file.pos == offset + |got|
        && r == if |got| == data.Length then Ok(()) else Err(EndOfFile)
      ensures r.Ok? <==> offset >= 0 && (data.Length == 0 || offset + data.Length <= |file.bytes|)
      ensures r.Ok? && data.Length > 0 ==> data[..] == file.bytes[offset..offset + data.Length]
    {
      r := file.Seek(offset);
      if r.Err? {
        return;
      }
      r := file.ReadFully(data);
    }

    method ReadLocationDetails(location: Location) returns (r: Result<()>)
      modifies file`pos, location`size, location`typ
      ensures var o := ReadLocationDetailsSpec(Lookup(inflightWrites.writes, location), file.bytes,
                                              old(file.pos), location.offset, old(location.size), old(location.typ));
        r == o.result && file.pos == o.pos && location.size == o.size && location.typ == o.typ
    {
      if location in inflightWrites.writes {
        var write := inflightWrites.writes[location];
        location.size := write.location.size;
        location.typ := write.location.typ;
        return Ok(());
      }
      r := ReadHeader(location);
    }

    /** Patches the record in place; `sync` asks for a flush to stable storage, which is not modelled. */
    method UpdateRecord(location: Location, data: seq<byte>, sync: bool) returns (r: Result<()>)
      modifies file
      ensures var u := UpdateSpec(old(file.bytes), old(file.pos), location.offset, location.size, data);
        r == u.result && file.bytes == u.bytes && file.pos == u.pos
    {
      r := file.Seek(HEADER_SIZE + location.offset);
      if r.Err? {
        return;
      }
      var size := PatchLength(|data|, location.size);
      r := file.Write(data, size);
    }
  }
}
