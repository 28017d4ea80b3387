/**
 * The on-disk record header: a 4-byte big-endian two's-complement length
 * (the whole record, header included) followed by a 1-byte type, then the
 * payload.  Java `int` arithmetic is modelled by wrapping into 32 bits.
 */
module Codec {

  /** One byte of a file, as Java's `readByte`/`write` move them (the bit pattern, read unsigned). */
  newtype byte = b: int | 0 <= b < 0x100

  /** Length of the record header: the 4-byte length and the 1-byte type. */
  const HEADER_SIZE: int := 5

  const TWO_31: int := 0x8000_0000
  const TWO_32: int := 0x1_0000_0000

  predicate IsInt32(x: int) {
    -TWO_31 <= x < TWO_31
  }

  /** Java `int` arithmetic: the 32-bit two's-complement value congruent to `x`. */
  function Wrap32(x: int): (r: int)
    ensures IsInt32(r)
    ensures (x - r) % TWO_32 == 0
    ensures IsInt32(x) ==> r == x
  {
    var u := x % TWO_32;
    if u < TWO_31 then u else u - TWO_32
  }

  /** `DataInput.readInt`: four bytes, most significant first, read as a signed 32-bit value. */
  function BE32(b: seq<byte>): (r: int)
    requires |b| == 4
    ensures IsInt32(r)
    ensures r < 0 <==> b[0] as int >= 0x80
  {
    var u := b[0] as int * 0x100_0000 + b[1] as int * 0x1_0000 + b[2] as int * 0x100 + b[3] as int;
    Wrap32(u)
  }

  /** `DataOutput.writeInt`: the big-endian bytes of a 32-bit value. */
  function ToBE32(v: int): (r: seq<byte>)
    requires IsInt32(v)
    ensures |r| == 4
    ensures v < 0 <==> r[0] as int >= 0x80
  {
    var u := if v < 0 then v + TWO_32 else v;
    [(u / 0x100_0000) as byte, (u / 0x1_0000 % 0x100) as byte, (u / 0x100 % 0x100) as byte, (u % 0x100) as byte]
  }

  lemma {:induction false} Unsigned32Digits(u: int)
    requires 0 <= u < TWO_32
    ensures u == (u / 0x100_0000) * 0x100_0000 + (u / 0x1_0000 % 0x100) * 0x1_0000
                 + (u / 0x100 % 0x100) * 0x100 + u % 0x100
  {
    var a, b, c, d := u / 0x100_0000, u / 0x1_0000 % 0x100, u / 0x100 % 0x100, u % 0x100;
    assert u / 0x100 == (u / 0x1_0000) * 0x100 + c;
    assert u / 0x1_0000 == a * 0x100 + b;
  }

  /** Decoding the encoding of a 32-bit value gives the value back. */
  lemma {:induction false} BE32OfToBE32(v: int)
    requires IsInt32(v)
    ensures BE32(ToBE32(v)) == v
  {
    var u := if v < 0 then v + TWO_32 else v;
    Unsigned32Digits(u);
    var b := ToBE32(v);
    assert b[0] as int == u / 0x100_0000;
    assert b[1] as int == u / 0x1_0000 % 0x100;
    assert b[2] as int == u / 0x100 % 0x100;
    assert b[3] as int == u % 0x100;
  }

  /** The base-256 digits of a 32-bit unsigned value are the bytes it was built from. */
  lemma {:induction false} DigitsOfUnsigned32(a: int, b: int, c: int, d: int)
    requires 0 <= a < 0x100 && 0 <= b < 0x100 && 0 <= c < 0x100 && 0 <= d < 0x100
    ensures var u := a * 0x100_0000 + b * 0x1_0000 + c * 0x100 + d;
      && u / 0x100_0000 == a && u / 0x1_0000 % 0x100 == b && u / 0x100 % 0x100 == c && u % 0x100 == d
  {
    var u := a * 0x100_0000 + b * 0x1_0000 + c * 0x100 + d;
    assert u / 0x100 == a * 0x1_0000 + b * 0x100 + c;
    assert u / 0x1_0000 == a * 0x100 + b;
  }

  /** Encoding the decoded value of four bytes gives the same four bytes back. */
  lemma {:induction false} ToBE32OfBE32(b: seq<byte>)
    requires |b| == 4
    ensures ToBE32(BE32(b)) == b
  {
    var u := b[0] as int * 0x100_0000 + b[1] as int * 0x1_0000 + b[2] as int * 0x100 + b[3] as int;
    DigitsOfUnsigned32(b[0] as int, b[1] as int, b[2] as int, b[3] as int);
    var v := BE32(b);
    assert (if v < 0 then v + TWO_32 else v) == u;
    var r := ToBE32(v);
    assert r[0] == b[0] && r[1] == b[1] && r[2] == b[2] && r[3] == b[3];
  }

  /** The largest payload whose total record length still fits the 32-bit length field. */
  predicate Encodable(payload: seq<byte>) {
    HEADER_SIZE + |payload| < TWO_31
  }

  /**
   * The bytes the journal's writer lays down for one record: the total
   * length, the type, then the payload.
   */
  function EncodeRecord(typ: byte, payload: seq<byte>): (r: seq<byte>)
    requires Encodable(payload)
    ensures |r| == HEADER_SIZE + |payload|
    ensures r[HEADER_SIZE - 1] == typ && r[HEADER_SIZE..] == payload
  {
    ToBE32(HEADER_SIZE + |payload|) + [typ] + payload
  }

  /** The header of an encoded record decodes to its total length and its type. */
  lemma {:induction false} EncodedHeader(typ: byte, payload: seq<byte>)
    requires Encodable(payload)
    ensures BE32(EncodeRecord(typ, payload)[..4]) == HEADER_SIZE + |payload|
    ensures EncodeRecord(typ, payload)[4] == typ
  {
    var r := EncodeRecord(typ, payload);
    assert r[..4] == ToBE32(HEADER_SIZE + |payload|);
    BE32OfToBE32(HEADER_SIZE + |payload|);
  }
}
