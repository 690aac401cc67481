// NBTTagByte of the latest revision, com.github.mryurihi.tbnbt.tag
// (src/main/java/com/github/mryurihi/tbnbt/tag/NBTTagByte.java): a byte
// value that writes and reads itself through the data streams, and
// compares itself with other tags.
module ComByte {
  import opened Bytes
  import opened Tags
  import opened Streams

  class TagByte {
    var value: JByte

    /** NBTTagByte(byte). */
    constructor (v: JByte)
      ensures value == v
    {
      value := v;
    }

    /** The package-private NBTTagByte(): Java's default value 0 until readPayloadBytes sets it. */
    constructor Unset()
      ensures value == 0
    {
      value := 0;
    }

    /** setValue: getValue returns v afterwards. */
    method SetValue(v: JByte)
      modifies this`value
      ensures value == v
    {
      value := v;
    }

    /** getTagType: BYTE. */
    function GetTagType(): (id: int)
      reads this
      ensures id == KindId(ByteTag(value))
    {
      ByteId
    }

    /** writePayloadBytes: writeByte of the value, exactly one byte. */
    method WritePayloadBytes(out: Output)
      modifies out`written
      ensures out.written == old(out.written) + [UnsignedByte(value)]
    {
      out.WriteSigned(value, 1);
    }

    /**
     * readPayloadBytes: readByte into the value, then the object itself; an
     * empty stream throws EOFException.
     */
    method ReadPayloadBytes(input: Input) returns (r: Result<TagByte>)
      modifies this`value, input`data
      ensures r.Ok? <==> old(input.data) != []
      ensures r.Err? ==> r.error == EndOfStream && value == old(value)
      ensures r.Ok? ==> r.value == this && value == SignedByte(old(input.data)[0]) && input.data == old(input.data)[1..]
    {
      var b := input.ReadByte();
      if b.Err? {
        return Err(b.error);
      }
      value := b.value;
      return Ok(this);
    }

    /**
     * equalsTag: the other tag's kind is BYTE and, cast to a byte tag, it
     * holds the same value.
     */
    function EqualsTag(t: Tag): (b: bool)
      reads this
      ensures b <==> t == ByteTag(value)
    {
      KindId(t) == ByteId && CastTo(t, ByteId).value.b == value
    }
  }

  /** A value written by one byte tag and read by a fresh one comes back unchanged, and nothing else is read. */
  method WriteThenRead(v: JByte, rest: seq<Byte>) returns (back: JByte, left: seq<Byte>)
    ensures back == v && left == rest
  {
    var out := new Output();
    var t := new TagByte(v);
    t.WritePayloadBytes(out);
    var input := new Input(out.written + rest);
    var u := new TagByte.Unset();
    var r := u.ReadPayloadBytes(input);
    assert (out.written + rest)[1..] == rest;
    back, left := u.value, input.data;
  }

  /** The one byte 0x12 read by a fresh byte tag gives the value 0x12. */
  method ReadVector() returns (v: JByte)
    ensures v == 0x12
  {
    var input := new Input([0x12]);
    var u := new TagByte.Unset();
    var r := u.ReadPayloadBytes(input);
    v := u.value;
  }
}
