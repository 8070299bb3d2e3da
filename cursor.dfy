/**
 * A read cursor over an in-memory buffer: `std::io::Cursor` together with the
 * `read_exact`, `read_u8` and `read_i32::<BigEndian>` reads the decoder calls on it.
 * The only way these reads fail is running out of bytes (`UnexpectedEof`), shown as `None`.
 */
module Cursors {
  import opened Wrappers
  import opened BigEndian

  class Cursor {
    const data: seq<Byte>
    var pos: nat

    constructor (data: seq<Byte>)
      ensures this.data == data && pos == 0
    {
      this.data := data;
      pos := 0;
    }

    /**
     * Fills a buffer of `n` bytes from the current position. When fewer than `n`
     * bytes remain the read fails and the cursor is left at the end of the data.
     */
    method ReadExact(n: nat) returns (r: Option<seq<Byte>>)
      modifies this
      ensures old(pos) + n <= |data| ==> r == Some(data[old(pos)..old(pos) + n]) && pos == old(pos) + n
      ensures |data| < old(pos) + n ==> r == None && pos == |data|
    {
      if pos + n <= |data| {
        r := Some(data[pos..pos + n]);
        pos := pos + n;
      } else {
        r := None;
        pos := |data|;
      }
    }

    /** Reads one byte. */
    method ReadU8() returns (r: Option<Byte>)
      modifies this
      ensures old(pos) < |data| ==> r == Some(data[old(pos)]) && pos == old(pos) + 1
      ensures |data| <= old(pos) ==> r == None && pos == |data|
    {
      var buf := ReadExact(1);
      if buf.None? {
        return None;
      }
      r := Some(buf.value[0]);
    }

    /** Reads four bytes and decodes them as a big-endian i32. */
    method ReadI32BE() returns (r: Option<int>)
      modifies this
      ensures old(pos) + 4 <= |data| ==> r == Some(I32At(data, old(pos))) && pos == old(pos) + 4
      ensures |data| < old(pos) + 4 ==> r == None && pos == |data|
    {
      var buf := ReadExact(4);
      if buf.None? {
        return None;
      }
      r := Some(DecodeI32(buf.value));
    }
  }
}
