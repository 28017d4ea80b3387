/**
 * What the accessor's operations promise, stated over the functions that
 * specify them: which source answers a read, what a read resolves and
 * returns, that reads repeat, that a record the writer laid down reads
 * back, and what an update changes.
 */
module AccessorProperties {
  import opened Faults
  import opened Codec
  import opened RandomAccess
  import opened Accessor

  /** An invalid location fails before the overlay, the file or the location is touched. */
  lemma InvalidLocationFailsFirst(hit: Option<WriteCommand>, bytes: seq<byte>, pos: nat,
                                  offset: int, size: int, typ: byte)
    ensures ReadRecordSpec(false, hit, bytes, pos, offset, size, typ) == Outcome(Err(InvalidLocation), pos, size, typ)
  {
  }

  /** An in-flight write answers the read, whatever the file holds, and nothing moves. */
  lemma OverlayPrecedence(write: WriteCommand, bytes: seq<byte>, pos: nat, offset: int, size: int, typ: byte)
    ensures ReadRecordSpec(true, Some(write), bytes, pos, offset, size, typ) == Outcome(Ok(write.data), pos, size, typ)
  {
  }

  /**
   * The payload read after the header, by the decoded size: a size of at
   * least the header reads the rest of the record or fails at the end of the
   * file; a smaller size whose 32-bit difference is negative is an invalid
   * location; the five smallest 32-bit sizes wrap to a length near 2^31.
   */
  lemma {:induction false} PayloadBySize(bytes: seq<byte>, at: nat, size: int, typ: byte)
    requires IsInt32(size)
    ensures var o := ReadPayloadSpec(bytes, at, size, typ);
      && (HEADER_SIZE <= size ==>
            && (o.result.Ok? <==> size == HEADER_SIZE || at + size - HEADER_SIZE <= |bytes|)
            && (o.result.Ok? ==> |o.result.value| == size - HEADER_SIZE && o.pos == at + size - HEADER_SIZE)
            && (o.result.Ok? && HEADER_SIZE < size ==> o.result.value == bytes[at..at + size - HEADER_SIZE])
            && (o.result.Err? ==> o.result.fault == EndOfFile))
      && (-TWO_31 + HEADER_SIZE <= size < HEADER_SIZE ==> o.result == Err(InvalidLocation) && o.pos == at)
      && (size < -TWO_31 + HEADER_SIZE ==>
            && o.result != Err(InvalidLocation)
            && (o.result.Ok? ==> |o.result.value| == size - HEADER_SIZE + TWO_32))
  {
    var n := Wrap32(size - HEADER_SIZE);
    if HEADER_SIZE <= size {
      assert n == size - HEADER_SIZE;
    } else if -TWO_31 + HEADER_SIZE <= size {
      assert n == size - HEADER_SIZE;
    } else {
      assert n == size - HEADER_SIZE + TWO_32;
    }
  }

  /**
   * A first read of a location whose size is NOT_SET decodes the header at
   * its offset, caches the length and the type in it, and then reads the
   * payload; the cached values stay even when the payload read fails.
   */
  lemma {:induction false} UnresolvedRead(bytes: seq<byte>, pos: nat, offset: int, typ: byte)
    requires 0 <= offset && offset + HEADER_SIZE <= |bytes|
    ensures var o := ReadRecordSpec(true, None, bytes, pos, offset, NOT_SET, typ);
      && o.size == BE32(bytes[offset..offset + 4])
      && o.typ == bytes[offset + 4]
      && (HEADER_SIZE <= o.size ==>
            && (o.result.Ok? <==> offset + o.size <= |bytes|)
            && (o.result.Ok? ==> o.result.value == bytes[offset + HEADER_SIZE..offset + o.size])
            && (o.result.Err? ==> o.result.fault == EndOfFile))
      && (-TWO_31 + HEADER_SIZE <= o.size < HEADER_SIZE ==> o.result == Err(InvalidLocation))
  {
    var h := SeekHeaderSpec(bytes, pos, offset, NOT_SET, typ);
    PayloadBySize(bytes, h.pos, h.size, h.typ);
  }

  /** A header cut short by the end of the file caches the length it could read and fails. */
  lemma TruncatedHeader(bytes: seq<byte>, pos: nat, offset: int, typ: byte)
    requires 0 <= offset && offset + 4 <= |bytes| < offset + HEADER_SIZE
    ensures var o := ReadRecordSpec(true, None, bytes, pos, offset, NOT_SET, typ);
      o == Outcome(Err(EndOfFile), |bytes|, BE32(bytes[offset..offset + 4]), typ)
  {
  }

  /**
   * A read of a location whose size is known skips the header: it returns
   * the bytes between the header and the end of the record and leaves the
   * location as it was.
   */
  lemma {:induction false} ResolvedRead(bytes: seq<byte>, pos: nat, offset: int, size: int, typ: byte)
    requires size != NOT_SET && 0 <= offset && HEADER_SIZE <= size < TWO_31
    ensures var o := ReadRecordSpec(true, None, bytes, pos, offset, size, typ);
      && o.size == size && o.typ == typ
      && (o.result.Ok? <==> offset + size <= |bytes| || size == HEADER_SIZE)
      && (o.result.Ok? && HEADER_SIZE < size ==> o.result.value == bytes[offset + HEADER_SIZE..offset + size])
      && (o.result.Ok? && size == HEADER_SIZE ==> o.result.value == [])
      && (o.result.Err? ==> o.result.fault == EndOfFile)
  {
    PayloadBySize(bytes, HEADER_SIZE + offset, size, typ);
  }

  /**
   * Every read seeks before it reads: what it returns and what it caches do
   * not depend on where the previous call left the file position.
   */
  lemma ReadRecordReseeks(valid: bool, hit: Option<WriteCommand>, bytes: seq<byte>, pos1: nat, pos2: nat,
                          offset: int, size: int, typ: byte)
    ensures var o1 := ReadRecordSpec(valid, hit, bytes, pos1, offset, size, typ);
      var o2 := ReadRecordSpec(valid, hit, bytes, pos2, offset, size, typ);
      o1.result == o2.result && o1.size == o2.size && o1.typ == o2.typ
  {
  }

  /**
   * A successful read repeats: reading the same location again, with the
   * overlay and the file unchanged, returns the same bytes and leaves the
   * cached size and type as the first read left them.
   */
  lemma {:induction false} ReadRecordIdempotent(valid: bool, hit: Option<WriteCommand>, bytes: seq<byte>, pos: nat,
                                                offset: int, size: int, typ: byte)
    requires ReadRecordSpec(valid, hit, bytes, pos, offset, size, typ).result.Ok?
    ensures var o1 := ReadRecordSpec(valid, hit, bytes, pos, offset, size, typ);
      var o2 := ReadRecordSpec(valid, hit, bytes, o1.pos, offset, o1.size, o1.typ);
      o2.result == o1.result && o2.size == o1.size && o2.typ == o1.typ
  {
    var o1 := ReadRecordSpec(valid, hit, bytes, pos, offset, size, typ);
    if valid && hit.None? && size == NOT_SET {
      var h := SeekHeaderSpec(bytes, pos, offset, size, typ);
      assert 0 <= offset && offset + HEADER_SIZE <= |bytes|;
      assert o1.size == BE32(bytes[offset..offset + 4]) && o1.typ == bytes[offset + 4];
      if o1.size != NOT_SET {
        assert ReadRecordSpec(valid, hit, bytes, o1.pos, offset, o1.size, o1.typ)
            == ReadPayloadSpec(bytes, HEADER_SIZE + offset, o1.size, o1.typ);
      }
    }
  }

  /**
   * A record the journal's writer laid down reads back: a location at its
   * offset, whether its size is NOT_SET or already the record's, returns
   * the payload and ends up holding the record's size (and, when it reads
   * the header, its type).
   */
  lemma {:induction false} ReadEncodedRecord(before: seq<byte>, typ: byte, payload: seq<byte>, after: seq<byte>,
                                             pos: nat, size: int, cachedTyp: byte)
    requires Encodable(payload)
    requires size == NOT_SET || size == HEADER_SIZE + |payload|
    ensures var o := ReadRecordSpec(true, None, before + EncodeRecord(typ, payload) + after, pos, |before|, size, cachedTyp);
      && o.result == Ok(payload)
      && o.size == HEADER_SIZE + |payload|
      && (size == NOT_SET ==> o.typ == typ)
      && o.pos == |before| + HEADER_SIZE + |payload|
  {
    var record := EncodeRecord(typ, payload);
    var bytes := before + record + after;
    var at := |before|;
    assert bytes[at..at + HEADER_SIZE + |payload|] == record;
    assert bytes[at..at + 4] == record[..4];
    assert bytes[at + 4] == record[4];
    assert bytes[at + HEADER_SIZE..at + HEADER_SIZE + |payload|] == payload;
    EncodedHeader(typ, payload);
    if size == NOT_SET {
      UnresolvedRead(bytes, pos, at, cachedTyp);
    } else {
      ResolvedRead(bytes, pos, at, size, cachedTyp);
    }
  }

  /** readLocationDetails on a record the writer laid down yields its total size and its type. */
  lemma {:induction false} LocationDetailsOfEncodedRecord(before: seq<byte>, typ: byte, payload: seq<byte>,
                                                          after: seq<byte>, pos: nat, size: int, cachedTyp: byte)
    requires Encodable(payload)
    ensures var o := ReadLocationDetailsSpec(None, before + EncodeRecord(typ, payload) + after, pos, |before|, size, cachedTyp);
      o == Outcome(Ok(()), |before| + HEADER_SIZE, HEADER_SIZE + |payload|, typ)
  {
    var record := EncodeRecord(typ, payload);
    var bytes := before + record + after;
    var at := |before|;
    assert bytes[at..at + 4] == record[..4];
    assert bytes[at + 4] == record[4];
    EncodedHeader(typ, payload);
  }

  /** readLocationDetails takes size and type from an in-flight write, whatever the file holds. */
  lemma LocationDetailsFromOverlay(write: WriteCommand, bytes: seq<byte>, pos: nat, offset: int, size: int, typ: byte)
    ensures ReadLocationDetailsSpec(Some(write), bytes, pos, offset, size, typ)
         == Outcome(Ok(()), pos, write.location.size, write.location.typ)
  {
  }

  /**
   * Handing a record from the overlay to the file changes nothing for a
   * reader: once the writer has laid down the bytes of an in-flight write,
   * reading with the entry and reading after it is removed return the same
   * payload.
   */
  lemma {:induction false} OverlayHandOff(write: WriteCommand, before: seq<byte>, typ: byte, after: seq<byte>,
                                          pos: nat, size: int, cachedTyp: byte)
    requires Encodable(write.data)
    requires size == NOT_SET || size == HEADER_SIZE + |write.data|
    ensures var bytes := before + EncodeRecord(typ, write.data) + after;
      ReadRecordSpec(true, Some(write), bytes, pos, |before|, size, cachedTyp).result
        == ReadRecordSpec(true, None, bytes, pos, |before|, size, cachedTyp).result
  {
    ReadEncodedRecord(before, typ, write.data, after, pos, size, cachedTyp);
  }

  /**
   * Writing `n` bytes of `data` just after the header of an encoded record,
   * with `n` within the payload, is the same as laying down the record with
   * its payload's first `n` bytes replaced: the header and every other
   * record stay as they were.
   */
  lemma {:induction false} PatchWithinPayload(before: seq<byte>, typ: byte, payload: seq<byte>, after: seq<byte>,
                                              data: seq<byte>, n: nat)
    requires Encodable(payload) && n <= |payload| && n <= |data|
    ensures Overwrite(before + EncodeRecord(typ, payload) + after, |before| + HEADER_SIZE, data[..n])
         == before + EncodeRecord(typ, data[..n] + payload[n..]) + after
  {
    var header := ToBE32(HEADER_SIZE + |payload|) + [typ];
    var at := |before| + HEADER_SIZE;
    var front := before + header;
    var bytes := before + EncodeRecord(typ, payload) + after;
    assert bytes == front + (payload + after);
    assert bytes[..at] == front;
    assert bytes[at + n..] == payload[n..] + after by {
      assert bytes[at..] == payload + after;
    }
    var patched := data[..n] + payload[n..];
    calc {
      Overwrite(bytes, at, data[..n]);
      bytes[..at] + data[..n] + bytes[at + n..];
      front + data[..n] + (payload[n..] + after);
      before + (header + patched) + after;
      before + EncodeRecord(typ, patched) + after;
    }
  }

  /**
   * An update whose data fits the payload rewrites the front of the payload
   * and nothing else, and a later read of the record returns the patched
   * payload.
   */
  lemma {:induction false} ReadAfterUpdate(before: seq<byte>, typ: byte, payload: seq<byte>, after: seq<byte>,
                                           pos: nat, data: seq<byte>)
    requires Encodable(payload) && |data| <= |payload|
    ensures var u := UpdateSpec(before + EncodeRecord(typ, payload) + after, pos, |before|, HEADER_SIZE + |payload|, data);
      && u.result == Ok(())
      && u.bytes == before + EncodeRecord(typ, data + payload[|data|..]) + after
      && ReadRecordSpec(true, None, u.bytes, u.pos, |before|, HEADER_SIZE + |payload|, typ).result
           == Ok(data + payload[|data|..])
  {
    assert data[..|data|] == data;
    PatchWithinPayload(before, typ, payload, after, data, |data|);
    ReadEncodedRecord(before, typ, data + payload[|data|..], after, |before| + HEADER_SIZE + |data|,
                      HEADER_SIZE + |payload|, typ);
  }

  /**
   * As written, updateRecord cuts the data to the record's total size, not
   * to its payload: data as long as the record runs `HEADER_SIZE` bytes past
   * its end, over the header of the record that follows.
   */
  lemma {:induction false} UpdateOverrunsNextHeader(before: seq<byte>, typ: byte, payload: seq<byte>, after: seq<byte>,
                                                    pos: nat, data: seq<byte>)
    requires Encodable(payload) && |data| >= HEADER_SIZE + |payload| && |after| >= HEADER_SIZE
    ensures var size := HEADER_SIZE + |payload|;
      var end := |before| + size;
      var u := UpdateSpec(before + EncodeRecord(typ, payload) + after, pos, |before|, size, data);
      && u.result == Ok(())
      && u.bytes[end..end + HEADER_SIZE] == data[|payload|..size]
  {
    var size := HEADER_SIZE + |payload|;
    var end := |before| + size;
    var bytes := before + EncodeRecord(typ, payload) + after;
    var u := UpdateSpec(bytes, pos, |before|, size, data);
    assert u.bytes == Overwrite(bytes, |before| + HEADER_SIZE, data[..size]);
    forall i | end <= i < end + HEADER_SIZE ensures u.bytes[i] == data[i - |before| - HEADER_SIZE] {
      assert i == |before| + HEADER_SIZE + (i - |before| - HEADER_SIZE);
    }
  }

  /**
   * The record "hello" (type 1) followed by the record "world": an update of
   * the first with ten bytes 0xFF leaves the second with a header whose
   * length reads -1.
   */
  lemma {:induction false} HelloUpdateCorruptsWorld()
    ensures var hello: seq<byte> := [0x68, 0x65, 0x6C, 0x6C, 0x6F];
      var world: seq<byte> := [0x77, 0x6F, 0x72, 0x6C, 0x64];
      var bytes := EncodeRecord(1, hello) + EncodeRecord(1, world);
      var u := UpdateSpec(bytes, 0, 0, 10, seq(10, _ => 0xFF));
      && ReadLocationDetailsSpec(None, bytes, 0, 10, NOT_SET, 0).size == 10
      && ReadLocationDetailsSpec(None, u.bytes, 0, 10, NOT_SET, 0).size == -1
  {
    var hello: seq<byte> := [0x68, 0x65, 0x6C, 0x6C, 0x6F];
    var world: seq<byte> := [0x77, 0x6F, 0x72, 0x6C, 0x64];
    var first, second := EncodeRecord(1, hello), EncodeRecord(1, world);
    var bytes := first + second;
    var ff: seq<byte> := seq(10, _ => 0xFF);
    assert bytes == first + second + [];
    LocationDetailsOfEncodedRecord(first, 1, world, [], 0, NOT_SET, 0);
    assert bytes == [] + first + second;
    UpdateOverrunsNextHeader([], 1, hello, second, 0, ff);
    var u := UpdateSpec(bytes, 0, 0, 10, ff);
    assert ff[5..10] == [0xFF, 0xFF, 0xFF, 0xFF, 0xFF];
    assert u.bytes[10..15] == [0xFF, 0xFF, 0xFF, 0xFF, 0xFF];
    assert u.bytes[10..14] == u.bytes[10..15][..4];
    assert BE32([0xFF, 0xFF, 0xFF, 0xFF]) == -1;
  }

  /** The number of bytes an update should write: the data, cut to the record's payload. */
  function BoundedPatchLength(dataLength: nat, size: int): (n: int)
    ensures n <= dataLength && n <= size - HEADER_SIZE
    ensures n == dataLength || n == size - HEADER_SIZE
  {
    Min(dataLength, size - HEADER_SIZE)
  }

  /** updateRecord with the write cut to the payload. */
  function BoundedUpdateSpec(bytes: seq<byte>, pos: nat, offset: int, size: int, data: seq<byte>): (u: FileUpdate)
  {
    if HEADER_SIZE + offset < 0 then
      FileUpdate(Err(NegativeSeek), bytes, pos)
    else
      var at := HEADER_SIZE + offset;
      var n := BoundedPatchLength(|data|, size);
      if n < 0 then FileUpdate(Err(IndexOutOfBounds), bytes, at)
      else FileUpdate(Ok(()), Overwrite(bytes, at, data[..n]), at + n)
  }

  /**
   * With the write cut to the payload, an update of any length keeps the
   * record's header and every neighbouring byte, and a later read returns
   * the patched payload.
   */
  lemma {:induction false} BoundedUpdateStaysInRecord(before: seq<byte>, typ: byte, payload: seq<byte>, after: seq<byte>,
                                                      pos: nat, data: seq<byte>)
    requires Encodable(payload)
    ensures var n := Min(|data|, |payload|);
      var u := BoundedUpdateSpec(before + EncodeRecord(typ, payload) + after, pos, |before|, HEADER_SIZE + |payload|, data);
      && u.result == Ok(())
      && u.bytes == before + EncodeRecord(typ, data[..n] + payload[n..]) + after
      && ReadRecordSpec(true, None, u.bytes, u.pos, |before|, HEADER_SIZE + |payload|, typ).result
           == Ok(data[..n] + payload[n..])
  {
    var n := Min(|data|, |payload|);
    PatchWithinPayload(before, typ, payload, after, data, n);
    ReadEncodedRecord(before, typ, data[..n] + payload[n..], after, |before| + HEADER_SIZE + n,
                      HEADER_SIZE + |payload|, typ);
  }

  /** The record "hello" of type 1 at the start of a file: its bytes, and a first read returns "hello". */
  lemma HelloRecord()
    ensures var hello: seq<byte> := [0x68, 0x65, 0x6C, 0x6C, 0x6F];
      && EncodeRecord(1, hello) == [0x00, 0x00, 0x00, 0x0A, 0x01, 0x68, 0x65, 0x6C, 0x6C, 0x6F]
      && ReadRecordSpec(true, None, EncodeRecord(1, hello), 0, 0, NOT_SET, 0).result == Ok(hello)
  {
    var hello: seq<byte> := [0x68, 0x65, 0x6C, 0x6C, 0x6F];
    var record := EncodeRecord(1, hello);
    assert ToBE32(10) == [0x00, 0x00, 0x00, 0x0A];
    assert record == [0x00, 0x00, 0x00, 0x0A] + [0x01] + hello;
    ReadEncodedRecord([], 1, hello, [], 0, NOT_SET, 0);
    assert [] + record + [] == record;
  }
}
