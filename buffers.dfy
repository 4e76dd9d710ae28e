/** The two stream objects the class-file injector works with:
    a read cursor over a byte array (java.nio.ByteBuffer, big-endian) and an
    append-only output (DataOutputStream over a ByteArrayOutputStream). */
module Buffers {
  import opened Wrappers
  import opened Bytes

  /** ByteBuffer.wrap(data): a fixed content and a position that every read advances.
      A read past the limit throws and leaves the position where it was. */
  class Cursor {
    const data: seq<byte>
    var pos: nat

    ghost predicate Valid()
      reads this
    {
      pos <= |data|
    }

    constructor (data: seq<byte>)
      ensures Valid() && this.data == data && pos == 0
    {
      this.data := data;
      pos := 0;
    }

    /** get(): one unsigned byte. */
    method Get() returns (r: Result<byte>)
      requires Valid()
      modifies this`pos
      ensures Valid()
      ensures old(pos) + 1 <= |data| ==> r == Ok(data[old(pos)]) && pos == old(pos) + 1
      ensures old(pos) + 1 > |data| ==> r == Err(BufferUnderflow) && pos == old(pos)
    {
      if pos + 1 <= |data| {
        r := Ok(data[pos]);
        pos := pos + 1;
      } else {
        r := Err(BufferUnderflow);
      }
    }

    /** getShort() & 0xFFFF: one big-endian u2. */
    method GetU2() returns (r: Result<nat>)
      requires Valid()
      modifies this`pos
      ensures Valid()
      ensures old(pos) + 2 <= |data| ==> r == Ok(U2At(data, old(pos))) && pos == old(pos) + 2
      ensures old(pos) + 2 > |data| ==> r == Err(BufferUnderflow) && pos == old(pos)
    {
      if pos + 2 <= |data| {
        r := Ok(U2At(data, pos));
        pos := pos + 2;
      } else {
        r := Err(BufferUnderflow);
      }
    }

    /** getInt(): one big-endian signed 32-bit int. */
    method GetInt() returns (r: Result<int>)
      requires Valid()
      modifies this`pos
      ensures Valid()
      ensures old(pos) + 4 <= |data| ==> r == Ok(S4At(data, old(pos))) && pos == old(pos) + 4
      ensures old(pos) + 4 > |data| ==> r == Err(BufferUnderflow) && pos == old(pos)
    {
      if pos + 4 <= |data| {
        r := Ok(S4At(data, pos));
        pos := pos + 4;
      } else {
        r := Err(BufferUnderflow);
      }
    }

    /** getLong(): eight bytes, whose value no caller uses. */
    method SkipLong() returns (r: Result<()>)
      requires Valid()
      modifies this`pos
      ensures Valid()
      ensures old(pos) + 8 <= |data| ==> r.Ok? && pos == old(pos) + 8
      ensures old(pos) + 8 > |data| ==> r == Err(BufferUnderflow) && pos == old(pos)
    {
      if pos + 8 <= |data| {
        r := Ok(());
        pos := pos + 8;
      } else {
        r := Err(BufferUnderflow);
      }
    }

    /** `new byte[n]` followed by get(dst): n bytes, or an exception. */
    method GetBytes(n: int) returns (r: Result<seq<byte>>)
      requires Valid()
      modifies this`pos
      ensures Valid()
      ensures n < 0 ==> r == Err(NegativeArraySize) && pos == old(pos)
      ensures 0 <= n && old(pos) + n <= |data| ==>
                r == Ok(data[old(pos)..old(pos) + n]) && pos == old(pos) + n
      ensures 0 <= n && old(pos) + n > |data| ==> r == Err(BufferUnderflow) && pos == old(pos)
    {
      if n < 0 {
        r := Err(NegativeArraySize);
      } else if pos + n <= |data| {
        r := Ok(data[pos..pos + n]);
        pos := pos + n;
      } else {
        r := Err(BufferUnderflow);
      }
    }

    /** position(p): move the cursor anywhere within [0, limit]. */
    method SetPosition(p: int) returns (r: Result<()>)
      requires Valid()
      modifies this`pos
      ensures Valid()
      ensures 0 <= p <= |data| ==> r.Ok? && pos == p
      ensures !(0 <= p <= |data|) ==> r == Err(IllegalPosition) && pos == old(pos)
    {
      if 0 <= p <= |data| {
        r := Ok(());
        pos := p;
      } else {
        r := Err(IllegalPosition);
      }
    }
  }

  /** A DataOutputStream writing into a ByteArrayOutputStream: `data` is
      everything written so far. */
  class ByteSink {
    var data: seq<byte>

    constructor ()
      ensures data == []
    {
      data := [];
    }

    /** writeByte(v): the low 8 bits of v. */
    method WriteByte(v: int)
      modifies this
      ensures data == old(data) + [v % 256]
    {
      data := data + [v % 256];
    }

    /** writeShort(v): the low 16 bits of v, big-endian. */
    method WriteShort(v: int)
      modifies this
      ensures data == old(data) + U2(v)
    {
      data := data + U2(v);
    }

    /** writeInt(v): v as four big-endian bytes. */
    method WriteInt(v: int)
      modifies this
      ensures data == old(data) + U4(v)
    {
      data := data + U4(v);
    }

    /** write(bytes). */
    method Write(bs: seq<byte>)
      modifies this
      ensures data == old(data) + bs
    {
      data := data + bs;
    }

    /** writeUTF(s): a u2 byte count then the modified UTF-8 bytes; a string
        whose encoding exceeds 65535 bytes throws before anything is written. */
    method WriteUtf(s: string) returns (r: Result<()>)
      modifies this
      ensures |ModifiedUtf8(s)| < TWO_16 ==> r.Ok? && data == old(data) + U2(|ModifiedUtf8(s)|) + ModifiedUtf8(s)
      ensures |ModifiedUtf8(s)| >= TWO_16 ==> r == Err(UtfDataFormat) && data == old(data)
    {
      var bytes := ModifiedUtf8(s);
      if |bytes| < TWO_16 {
        data := data + U2(|bytes|) + bytes;
        r := Ok(());
      } else {
        r := Err(UtfDataFormat);
      }
    }
  }
}
