# hawtjournal `DataFileAccessor` in Dafny

This project models the synchronous record reader and updater of hawtjournal, an
append-only journal. A `DataFileAccessor` is bound to one open handle of one
data file. It holds a reference to the journal's map of in-flight writes and a
`disposed` flag. It does five things:

- `readRecord` returns a record's payload. An invalid location is refused. An
  in-flight write for the location answers the read without touching the file.
  Otherwise the record header is decoded on first use and the size and type are
  cached in the `Location`.
- `readLocationDetails` resolves only the size and type.
- `read` is a raw positional read.
- `updateRecord` patches the bytes after a record's header in place.
- `dispose` is one-shot.

The on-disk record is a 4-byte big-endian signed total length, a 1-byte type,
then `length - HEADER_SIZE` payload bytes, where `HEADER_SIZE` is 5.

Layout:

- `faults.dfy` (module `Faults`): the exceptions the paths can raise
  (`InvalidLocation`, `NegativeSeek`, `EndOfFile`, `IndexOutOfBounds`) as a
  `Result`, and `Option`.
- `codec.dfy` (module `Codec`): the `byte` type, Java `int` wrap-around
  (`Wrap32`), `readInt` decoding (`BE32`) and its inverse (`ToBE32`), and the
  record layout (`EncodeRecord`).
- `random_access_file.dfy` (module `RandomAccess`): the `RandomAccessFile`
  handle as a class holding the file's bytes and a seek position.
  - `seek` refuses negative positions.
  - A read consumes the bytes that exist and then throws `EOFException`, so a
    failed read still moves the position.
  - A write past the end extends the file, and the gap reads as zeros.
- `data_file_accessor.dfy` (module `Accessor`): `Location` (a class whose
  `size` and `type` are updated in place), `WriteCommand`, the in-flight map,
  `DataFile`, and the `DataFileAccessor` class.
  - Each method is proved equal to a pure specification function of the state it
    reads and writes: `ReadRecordSpec`, `ReadLocationDetailsSpec` and
    `UpdateSpec`, built from `ReadHeaderSpec`/`SeekHeaderSpec` and
    `ReadPayloadSpec`.
  - The `modifies` clauses name exactly the file position (or the file) and the
    location's `size` and `typ` fields.
- `accessor_properties.dfy` (module `AccessorProperties`): what those
  specification functions promise. This covers the order of the checks, what a
  first read and a resolved read return and cache, repeated reads, round trips
  with the writer's layout, the hand-off from the overlay to the file, and the
  effect of an update.

The code is modelled where it differs from the documented intent:
- A short read inside `readRecord` is not rethrown as "Invalid location". Only
  `RuntimeException` is caught (DataFileAccessor.java:90), so the
  `EOFException` propagates as it is.
- `updateRecord` bounds the write by the record's total size (see Findings).
- `readRecord`, `read` and `updateRecord` do not check `disposed`.

## Model

| member | source | states |
|---|---|---|
| `Codec.Wrap32` | src/main/java/org/fusesource/hawtjournal/api/DataFileAccessor.java:86 | Java `int` arithmetic: the result lies in 32-bit range, is congruent to the exact value modulo 2^32, and equals it when it fits |
| `Codec.BE32` | src/main/java/org/fusesource/hawtjournal/api/DataFileAccessor.java:80 | `readInt` decodes four bytes as a signed 32-bit value, negative exactly when the first byte's top bit is set |
| `Codec.ToBE32` | src/main/java/org/fusesource/hawtjournal/api/DataFileAccessor.java:80 | the writer's side of the length field: four bytes, with the sign in the top bit of the first |
| `Codec.DigitsOfUnsigned32` | src/main/java/org/fusesource/hawtjournal/api/DataFileAccessor.java:80 | the base-256 digits of a 32-bit unsigned value are the bytes it was assembled from |
| `Codec.BE32OfToBE32` | src/main/java/org/fusesource/hawtjournal/api/DataFileAccessor.java:80 | decoding the big-endian bytes of any 32-bit value gives the value back |
| `Codec.ToBE32OfBE32` | src/main/java/org/fusesource/hawtjournal/api/DataFileAccessor.java:80 | any four header bytes are the encoding of the length they decode to (the decoding loses nothing) |
| `Codec.EncodeRecord` | src/main/java/org/fusesource/hawtjournal/api/DataFileAccessor.java:78-88 | the record layout the reader expects: total length `HEADER_SIZE` plus the payload length, the type at byte 4, the payload from byte 5 |
| `Codec.EncodedHeader` | src/main/java/org/fusesource/hawtjournal/api/DataFileAccessor.java:80-81 | the header of a laid-down record decodes to its total length and its type |
| `RandomAccess.Available` | src/main/java/org/fusesource/hawtjournal/api/DataFileAccessor.java:87 | a read of `n` bytes consumes the file's bytes from the position up to the end of the file, all `n` of them exactly when they exist |
| `RandomAccess.Overwrite` | src/main/java/org/fusesource/hawtjournal/api/DataFileAccessor.java:115 | a write replaces exactly the bytes it covers, keeps every other byte, grows the file only to its own end, and zero-fills a gap |
| `RandomAccess.RandomAccessFile.Seek` | src/main/java/org/fusesource/hawtjournal/api/DataFileAccessor.java:79 | a negative position is refused with an I/O error and leaves the position; otherwise the position is set |
| `RandomAccess.RandomAccessFile.ReadFully` | src/main/java/org/fusesource/hawtjournal/api/DataFileAccessor.java:87 | fills the array from the position with the bytes that exist, keeps the rest of the array, advances past what it read, and fails with end-of-file if the array is not full |
| `RandomAccess.RandomAccessFile.ReadInt` | src/main/java/org/fusesource/hawtjournal/api/DataFileAccessor.java:80 | returns `BE32` of the four bytes at the position, or end-of-file after consuming what remains |
| `RandomAccess.RandomAccessFile.ReadByte` | src/main/java/org/fusesource/hawtjournal/api/DataFileAccessor.java:81 | returns the byte at the position, or end-of-file |
| `RandomAccess.RandomAccessFile.Write` | src/main/java/org/fusesource/hawtjournal/api/DataFileAccessor.java:115 | writes the first `len` bytes at the position and moves past them; a negative length is an unchecked error that changes nothing |
| `Accessor.Lookup` | src/main/java/org/fusesource/hawtjournal/api/DataFileAccessor.java:72 | the in-flight write for a location, present exactly when the map holds the location |
| `Accessor.ReadHeaderSpec` | src/main/java/org/fusesource/hawtjournal/api/DataFileAccessor.java:79-81 | the header read succeeds exactly when five bytes remain. The length is cached whenever four bytes exist, even when the type byte is missing. The type is set only on success, and the position then stands after the header |
| `Accessor.SeekHeaderSpec` | src/main/java/org/fusesource/hawtjournal/api/DataFileAccessor.java:106-108 | a negative offset fails the seek before anything is read or cached |
| `Accessor.ReadPayloadSpec` | src/main/java/org/fusesource/hawtjournal/api/DataFileAccessor.java:86-88 | the payload read leaves size and type alone and returns exactly `Wrap32(size - HEADER_SIZE)` bytes |
| `Accessor.PatchLength` | src/main/java/org/fusesource/hawtjournal/api/DataFileAccessor.java:114 | the update writes the smaller of the data's length and the record's total size |
| `Accessor.DataFileAccessor.constructor` | src/main/java/org/fusesource/hawtjournal/api/DataFileAccessor.java:44-48 | binds the data file, the journal's in-flight map and the opened handle; starts not disposed |
| `Accessor.DataFileAccessor.GetDataFile` | src/main/java/org/fusesource/hawtjournal/api/DataFileAccessor.java:50-52 | the data file the accessor was built for |
| `Accessor.DataFileAccessor.Dispose` | src/main/java/org/fusesource/hawtjournal/api/DataFileAccessor.java:54-64 | after any call the accessor is disposed and the handle was given back exactly once; a call on a disposed accessor changes nothing; no close failure reaches the caller |
| `Accessor.DataFileAccessor.ReadRecord` | src/main/java/org/fusesource/hawtjournal/api/DataFileAccessor.java:66-93 | result, file position, and the location's size and type are exactly those `ReadRecordSpec` gives for the location, its overlay entry and the file |
| `Accessor.DataFileAccessor.ReadHeader` | src/main/java/org/fusesource/hawtjournal/api/DataFileAccessor.java:78-81 | seek, `setSize(readInt())`, `setType(readByte())`, as `SeekHeaderSpec` |
| `Accessor.DataFileAccessor.ReadPayload` | src/main/java/org/fusesource/hawtjournal/api/DataFileAccessor.java:86-88 | allocation of `size - HEADER_SIZE` bytes in 32-bit arithmetic and `readFully`, as `ReadPayloadSpec` |
| `Accessor.DataFileAccessor.Read` | src/main/java/org/fusesource/hawtjournal/api/DataFileAccessor.java:95-98 | no overlay, no header. A success fills the array with exactly `bytes[offset..offset + length]` and happens exactly when that many bytes remain. A short read fills what exists and fails with end-of-file. A negative offset changes nothing |
| `Accessor.DataFileAccessor.ReadLocationDetails` | src/main/java/org/fusesource/hawtjournal/api/DataFileAccessor.java:100-110 | result, position, size and type are those `ReadLocationDetailsSpec` gives; no validity check |
| `Accessor.DataFileAccessor.UpdateRecord` | src/main/java/org/fusesource/hawtjournal/api/DataFileAccessor.java:112-120 | the file's bytes and position are those of `UpdateSpec`; neither the overlay nor the location is read for anything but offset and size, or changed |
| `AccessorProperties.InvalidLocationFailsFirst` | src/main/java/org/fusesource/hawtjournal/api/DataFileAccessor.java:68-70 | an invalid location fails with "Invalid location" whatever the overlay holds, and moves neither the file nor the location |
| `AccessorProperties.OverlayPrecedence` | src/main/java/org/fusesource/hawtjournal/api/DataFileAccessor.java:72-75 | with an in-flight write for the location, the read returns exactly its data, whatever the file holds, and moves neither the position nor the location |
| `AccessorProperties.PayloadBySize` | src/main/java/org/fusesource/hawtjournal/api/DataFileAccessor.java:86-91 | a size of at least `HEADER_SIZE` reads the rest of the record or fails at end of file. A size between `-2^31 + 5` and 4 fails as an invalid location. The five smallest sizes wrap to a length near 2^31 and escape that check |
| `AccessorProperties.UnresolvedRead` | src/main/java/org/fusesource/hawtjournal/api/DataFileAccessor.java:78-88 | with size NOT_SET the location caches `BE32` of the header and its type byte, even if the payload read then fails. The result is `bytes[offset + 5..offset + size]` exactly when the record fits the file |
| `AccessorProperties.TruncatedHeader` | src/main/java/org/fusesource/hawtjournal/api/DataFileAccessor.java:79-81 | a file ending after the length field: the length is cached, the type is not, the read fails at end of file |
| `AccessorProperties.ResolvedRead` | src/main/java/org/fusesource/hawtjournal/api/DataFileAccessor.java:82-88 | with a known size the header is not re-read: the result is the bytes between header and record end, and the location stays as it was |
| `AccessorProperties.ReadRecordReseeks` | src/main/java/org/fusesource/hawtjournal/api/DataFileAccessor.java:78-84 | result and cached values do not depend on where a previous call left the file position |
| `AccessorProperties.ReadRecordIdempotent` | src/main/java/org/fusesource/hawtjournal/api/DataFileAccessor.java:78-88 | after a successful read, a second read with the same overlay and file returns the same bytes and keeps the cached size and type |
| `AccessorProperties.ReadEncodedRecord` | src/main/java/org/fusesource/hawtjournal/api/DataFileAccessor.java:78-88 | a record laid down at the location's offset reads back as its payload, with the size (and, on first read, the type) cached |
| `AccessorProperties.LocationDetailsOfEncodedRecord` | src/main/java/org/fusesource/hawtjournal/api/DataFileAccessor.java:105-109 | resolving a laid-down record yields size `HEADER_SIZE` plus the payload length, and its type, whatever the location held before |
| `AccessorProperties.LocationDetailsFromOverlay` | src/main/java/org/fusesource/hawtjournal/api/DataFileAccessor.java:101-104 | with an in-flight write, size and type are copied from the write's own location and the file is not touched |
| `AccessorProperties.OverlayHandOff` | src/main/java/org/fusesource/hawtjournal/api/DataFileAccessor.java:72-88 | once an in-flight write's bytes are on disk, the read returns the same payload with or without the overlay entry |
| `AccessorProperties.PatchWithinPayload` | src/main/java/org/fusesource/hawtjournal/api/DataFileAccessor.java:113-115 | writing up to the payload's length after the header is the same as laying down the record with the front of its payload replaced |
| `AccessorProperties.ReadAfterUpdate` | src/main/java/org/fusesource/hawtjournal/api/DataFileAccessor.java:112-115 | an update with data no longer than the payload succeeds, keeps the header and every other byte, and a later read returns the patched payload |
| `AccessorProperties.UpdateOverrunsNextHeader` | src/main/java/org/fusesource/hawtjournal/api/DataFileAccessor.java:114-115 | as written, data as long as the record overwrites the following `HEADER_SIZE` bytes, the next record's header |
| `AccessorProperties.HelloUpdateCorruptsWorld` | src/main/java/org/fusesource/hawtjournal/api/DataFileAccessor.java:114-115 | concrete case: updating record "hello" with ten 0xFF bytes makes the next record's length read -1 instead of 10 |
| `AccessorProperties.BoundedPatchLength` | src/main/java/org/fusesource/hawtjournal/api/DataFileAccessor.java:114 | the intended bound: no more than the data and no more than the payload |
| `AccessorProperties.BoundedUpdateStaysInRecord` | src/main/java/org/fusesource/hawtjournal/api/DataFileAccessor.java:112-115 | with the write cut to the payload, any update keeps the header and all neighbouring bytes, and the record then reads back the patched payload |
| `AccessorProperties.HelloRecord` | src/main/java/org/fusesource/hawtjournal/api/DataFileAccessor.java:78-88 | the record "hello" of type 1 is `00 00 00 0A 01 68 65 6C 6C 6F`, and a first read of it returns "hello" |

`ReadRecordSpec`, `ReadLocationDetailsSpec`, `UpdateSpec` and
`BoundedUpdateSpec` have no contract of their own. They are what the methods
are proved equal to, and the lemmas above state their meaning.

## Left out

- `IOHelper.sync(file.getFD())` (line 117): an fsync through a foreign helper.
  `UpdateRecord` takes `sync` and ignores it.
- `DataFile.openRandomAccessFile` and `closeRandomAccessFile` belong to
  `DataFile`, which is not part of this model. The constructor receives the
  opened handle.
- Accessor.DataFileAccessor.Dispose: handing the handle back is recorded only as
  a ghost count. Whether closing fails makes no difference, because the failure
  is only printed, so that outcome is not an input. The stack-trace printing is
  not modelled.
- The journal's in-flight map is a concurrent map filled by the appender thread.
  Each call reads it as a fixed snapshot. Its concurrency belongs to the
  appender.
- `Location` is not part of this model.
  - `isValid()` is a constant field `valid` whose rule is not modelled.
  - `NOT_SET` is a constant whose value is left unspecified.
  - The in-flight map is keyed by `Location` object identity, because
    `Location.equals`/`hashCode` are not part of this model.
- The data file's contents belong to the accessor's own handle. Growth of the
  file by the appender or by other handles between calls is not modelled.
- hawtbuf's `Buffer` is a `seq<byte>` starting at offset 0. A Java `byte` is
  modelled as its unsigned bit pattern.
- Accessor.DataFileAccessor.ReadRecord: allocating the payload array always
  succeeds. Memory exhaustion (for example the length near 2^31 that the five
  smallest sizes wrap to) is not modelled.
- Offsets are unbounded integers. A 32-bit overflow of
  `HEADER_SIZE + location.getOffset()` is not modelled, because the width of
  `Location`'s offset is not part of this model.
- The code has no "disposed" check on reads or updates, so none is modelled.

## Findings

| source | as written | input that shows it | evidently intended | confidence | as-written member | corrected member |
|---|---|---|---|---|---|---|
| src/main/java/org/fusesource/hawtjournal/api/DataFileAccessor.java:114 | the update writes `min(data length, location.getSize())` bytes starting after the header, so it can write `HEADER_SIZE` bytes past the end of the record | record "hello" (type 1, size 10) at offset 0 followed by record "world", then updateRecord of the first with ten 0xFF bytes: the second record's length field becomes FF FF FF FF (-1) | `min(data length, location.getSize() - HEADER_SIZE)`, so that an update never leaves its record's payload | high; not executed | `AccessorProperties.UpdateOverrunsNextHeader` | `AccessorProperties.BoundedUpdateStaysInRecord` |

`DataFileAccessor.UpdateRecord` keeps the code's bound. The intended bound is
`AccessorProperties.BoundedPatchLength` and `BoundedUpdateSpec`. Under that
bound every update stays inside its payload, and `ReadAfterUpdate` shows that
both bounds agree whenever the data fits the payload.
