// java.io.DataInputStream and DataOutputStream over an in-memory byte
// source and sink.  An input is the sequence of bytes it has not handed out
// yet; an output is everything written to it so far.  A read that runs past
// the end consumes what is left and fails with EOFException.
module Streams {
  import opened Bytes

  /** r is what a reading method returns when the pure reader gives spec, and rest is what it leaves. */
  predicate Matches<T(==)>(r: Result<T>, spec: Result<Read<T>>, rest: seq<Byte>)
  {
    match spec
    case Ok(rd) => r == Ok(rd.value) && rest == rd.rest
    case Err(e) => r == Err(e)
  }

  class Input {
    var data: seq<Byte>
    var closed: bool

    constructor (bytes: seq<Byte>)
      ensures data == bytes && !closed
    {
      data := bytes;
      closed := false;
    }

    /** readByte (n = 1), readShort (2), readInt (4), readLong (8). */
    method ReadSigned(n: nat) returns (r: Result<int>)
      requires n >= 1
      modifies this`data
      ensures Matches(r, Bytes.ReadSigned(old(data), n), data)
      ensures r.Ok? ==> InSigned(r.value, n)
      ensures r.Err? ==> data == []
    {
      if |data| < n {
        data := [];
        return Err(EndOfStream);
      }
      r := Ok(DecodeSigned(data[..n]));
      data := data[n..];
    }

    method ReadByte() returns (r: Result<int>)
      modifies this`data
      ensures Matches(r, Bytes.ReadSigned(old(data), 1), data)
      ensures r.Ok? ==> -0x80 <= r.value < 0x80
    {
      WidthBounds();
      r := ReadSigned(1);
    }

    method ReadShort() returns (r: Result<int>)
      modifies this`data
      ensures Matches(r, Bytes.ReadSigned(old(data), 2), data)
      ensures r.Ok? ==> -0x8000 <= r.value < 0x8000
    {
      WidthBounds();
      r := ReadSigned(2);
    }

    method ReadInt() returns (r: Result<int>)
      modifies this`data
      ensures Matches(r, Bytes.ReadSigned(old(data), 4), data)
      ensures r.Ok? ==> -0x8000_0000 <= r.value < 0x8000_0000
    {
      WidthBounds();
      r := ReadSigned(4);
    }

    method ReadLong() returns (r: Result<int>)
      modifies this`data
      ensures Matches(r, Bytes.ReadSigned(old(data), 8), data)
      ensures r.Ok? ==> -0x8000_0000_0000_0000 <= r.value < 0x8000_0000_0000_0000
    {
      WidthBounds();
      r := ReadSigned(8);
    }

    /** readFully into a fresh buffer of n bytes (readFloat and readDouble take their bits this way). */
    method ReadFully(n: nat) returns (r: Result<seq<Byte>>)
      modifies this`data
      ensures Matches(r, ReadN(old(data), n), data)
      ensures r.Err? ==> data == []
    {
      if |data| < n {
        data := [];
        return Err(EndOfStream);
      }
      r := Ok(data[..n]);
      data := data[n..];
    }

    method Close()
      modifies this`closed
      ensures closed
    {
      closed := true;
    }
  }

  class Output {
    var written: seq<Byte>
    var closed: bool

    constructor ()
      ensures written == [] && !closed
    {
      written := [];
      closed := false;
    }

    /** write(byte[]): the bytes, unchanged, after what is already there. */
    method Write(bytes: seq<Byte>)
      modifies this`written
      ensures written == old(written) + bytes
    {
      written := written + bytes;
    }

    /** writeByte / writeShort / writeInt / writeLong: the low n bytes of v, big-endian. */
    method WriteSigned(v: int, n: nat)
      requires n >= 1
      modifies this`written
      ensures written == old(written) + EncodeSigned(v, n)
    {
      written := written + EncodeSigned(v, n);
    }

    method Close()
      modifies this`closed
      ensures closed
    {
      closed := true;
    }
  }
}
