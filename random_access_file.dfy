/**
 * The part of `java.io.RandomAccessFile` the accessor relies on: a byte
 * sequence with a seek position.  Reads consume whatever bytes exist before
 * failing with an end-of-file exception, so a failed read still moves the
 * position; a write past the end extends the file, and the gap between the
 * old end and the write reads as zeros.
 */
module RandomAccess {
  import opened Faults
  import opened Codec

  /** The bytes a read of `n` bytes at `pos` can consume before the end of the file. */
  function Available(bytes: seq<byte>, pos: nat, n: nat): (r: seq<byte>)
    ensures |r| == if pos < |bytes| then Min(n, |bytes| - pos) else 0
    ensures forall i :: 0 <= i < |r| ==> r[i] == bytes[pos + i]
    ensures |r| == n <==> n == 0 || pos + n <= |bytes|
    ensures pos + n <= |bytes| ==> r == bytes[pos..pos + n]
  {
    if pos >= |bytes| then [] else bytes[pos .. pos + Min(n, |bytes| - pos)]
  }

  function Min(a: int, b: int): int {
    if a <= b then a else b
  }

  function Max(a: int, b: int): int {
    if a <= b then b else a
  }

  /**
   * The file after writing `d` at `pos`: `d` replaces the bytes it covers,
   * every other byte keeps its value, and a gap before `pos` reads as zeros.
   */
  function Overwrite(bytes: seq<byte>, pos: nat, d: seq<byte>): (r: seq<byte>)
    ensures |d| == 0 ==> r == bytes
    ensures |d| > 0 ==> |r| == Max(|bytes|, pos + |d|)
    ensures forall i :: 0 <= i < |d| ==> r[pos + i] == d[i]
    ensures forall i :: 0 <= i < |bytes| && !(pos <= i < pos + |d|) ==> r[i] == bytes[i]
    ensures forall i :: |bytes| <= i < pos && i < |r| ==> r[i] == 0
    ensures pos + |d| <= |bytes| ==> r == bytes[..pos] + d + bytes[pos + |d|..]
  {
    if |d| == 0 then bytes
    else
      var padded := if pos <= |bytes| then bytes else bytes + seq(pos - |bytes|, _ => 0);
      padded[..pos] + d + (if pos + |d| < |padded| then padded[pos + |d|..] else [])
  }

  class RandomAccessFile {
    var bytes: seq<byte>
    var pos: nat

    constructor (content: seq<byte>)
      ensures bytes == content && pos == 0
    {
      bytes, pos := content, 0;
    }

    /** `seek(p)`: a negative position is refused and the position stays. */
    method Seek(p: int) returns (r: Result<()>)
      modifies this`pos
      ensures r == if p < 0 then Err(NegativeSeek) else Ok(())
      ensures pos == if p < 0 then old(pos) else p
    {
      if p < 0 {
        return Err(NegativeSeek);
      }
      pos := p;
      r := Ok(());
    }

    /** `readFully(a)`: fills `a` from the position, or fills what exists and throws. */
    method ReadFully(a: array<byte>) returns (r: Result<()>)
      modifies this`pos, a
      ensures var got := Available(bytes, old(pos), a.Length);
        && a[..] == got + old(a[..])[|got|..]
        && pos == old(pos) + |got|
        && r == if |got| == a.Length then Ok(()) else Err(EndOfFile)
    {
      var got := Available(bytes, pos, a.Length);
      forall i | 0 <= i < |got| {
        a[i] := got[i];
      }
      pos := pos + |got|;
      r := if |got| == a.Length then Ok(()) else Err(EndOfFile);
    }

    /** `readInt()`: four bytes read big-endian as a signed 32-bit value. */
    method ReadInt() returns (r: Result<int>)
      modifies this`pos
      ensures pos == old(pos) + |Available(bytes, old(pos), 4)|
      ensures r == if old(pos) + 4 <= |bytes| then Ok(BE32(bytes[old(pos)..old(pos) + 4])) else Err(EndOfFile)
    {
      var got := Available(bytes, pos, 4);
      pos := pos + |got|;
      r := if |got| == 4 then Ok(BE32(got)) else Err(EndOfFile);
    }

    /** `readByte()`: one byte. */
    method ReadByte() returns (r: Result<byte>)
      modifies this`pos
      ensures pos == old(pos) + |Available(bytes, old(pos), 1)|
      ensures r == if old(pos) < |bytes| then Ok(bytes[old(pos)]) else Err(EndOfFile)
    {
      var got := Available(bytes, pos, 1);
      pos := pos + |got|;
      r := if |got| == 1 then Ok(got[0]) else Err(EndOfFile);
    }

    /** `write(d, 0, len)`: a negative length or one beyond `d` is refused unchecked. */
    method Write(d: seq<byte>, len: int) returns (r: Result<()>)
      modifies this
      ensures r == if 0 <= len <= |d| then Ok(()) else Err(IndexOutOfBounds)
      ensures bytes == if r.Ok? then Overwrite(old(bytes), old(pos), d[..len]) else old(bytes)
      ensures pos == if r.Ok? then old(pos) + len else old(pos)
    {
      if len < 0 || len > |d| {
        return Err(IndexOutOfBounds);
      }
      bytes := Overwrite(bytes, pos, d[..len]);
      pos := pos + len;
      r := Ok(());
    }
  }
}
