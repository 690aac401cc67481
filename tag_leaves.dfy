// The leaf classes NBTTagString, NBTTagByteArray, NBTTagIntArray and
// NBTTagShort of the package mryurihi.tbnbt.tag
// (src/main/java/mryurihi/tbnbt/tag/).  These files still carry the
// getPayloadBytes of an earlier revision: a List<Byte> that starts with the
// name's String payload when the object is named, followed by the object's
// own bytes appended one at a time.  Each getPayloadBytes is proved to build
// exactly the bytes the functions below describe, and those bytes are proved
// to read back through NBTParser's payload readers.
module TagLeaves {
  import opened Bytes
  import opened Tags
  import RootPayload
  import ParserSpec
  import RootRoundTrip
  import ParserFacts

  /**
   * The String payload of this package: the value's character count as a
   * short, then its bytes (which may be more than the characters).
   */
  function StringBytes(v: Str): (r: seq<Byte>)
    ensures |r| == 2 + |v| && r[2..] == v
    ensures JavaLength(v) <= ShortMax ==> DecodeSigned(r[..2]) == JavaLength(v)
  {
    assert JavaLength(v) <= ShortMax ==> DecodeSigned(ShortBytes(JavaLength(v))) == JavaLength(v) by {
      if JavaLength(v) <= ShortMax {
        SignedRoundTrip(JavaLength(v), 2);
      }
    }
    assert (ShortBytes(JavaLength(v)) + v)[..2] == ShortBytes(JavaLength(v));
    ShortBytes(JavaLength(v)) + v
  }

  /** new NBTTagString(name).getPayloadBytes() when there is a name: the constructor's guard, then its payload. */
  function NameBytes(name: Option<Str>): (r: Result<seq<Byte>>)
    ensures r.Err? <==> name.Some? && JavaLength(name.value) > ShortMax
    ensures r.Err? ==> r.error == IllegalArgument
  {
    if name.None? then Ok([])
    else if JavaLength(name.value) > ShortMax then Err(IllegalArgument)
    else Ok(StringBytes(name.value))
  }

  /** getPayloadBytes of a leaf of this package whose name field is name and whose own bytes are body. */
  function WithName(name: Option<Str>, body: seq<Byte>): (r: Result<seq<Byte>>)
    ensures r.Err? <==> name.Some? && JavaLength(name.value) > ShortMax
    ensures r.Err? ==> r.error == IllegalArgument
    ensures r.Ok? && name.Some? ==> r.value == StringBytes(name.value) + body
    ensures r.Ok? ==> |r.value| >= |body| && r.value[|r.value| - |body|..] == body
  {
    if NameBytes(name).Err? then Err(NameBytes(name).error) else Ok(NameBytes(name).value + body)
  }

  /** An unnamed object writes its own bytes alone. */
  lemma WithNameNone(body: seq<Byte>)
    ensures WithName(None, body) == Ok(body)
  {
    assert [] + body == body;
  }

  /** The name an object writes first, with body after it, is the name parseTagX(in, true) reads first. */
  lemma NameReadsBack(name: Option<Str>, body: seq<Byte>)
    requires name.Some? ==> JavaLength(name.value) == |name.value| <= ShortMax
    ensures WithName(name, body).Ok?
    ensures ParserSpec.NameOf(WithName(name, body).value, name.Some?) == Ok(Read(name, body))
  {
    if name.Some? {
      RootRoundTrip.StringRoundTrip(name.value, body);
      assert WithName(name, body).value == ShortBytes(|name.value|) + name.value + body;
    } else {
      assert WithName(name, body).value == body;
    }
  }

  /**
   * new NBTTagString(name).getPayloadBytes(): the guard of the constructor,
   * then the unnamed payload.
   */
  method NamePayload(name: Str) returns (r: Result<seq<Byte>>)
    ensures r == NameBytes(Some(name))
    decreases 3
  {
    var t :- TagString.New(Some(name));
    r := t.GetPayloadBytes();
    WithNameNone(StringBytes(name));
  }

  /** if (name != null) out.addAll(new NBTTagString(name).getPayloadBytes()), on an empty out. */
  method NameFirst(name: Option<Str>) returns (r: Result<seq<Byte>>)
    ensures r == NameBytes(name)
    decreases if name.Some? then 4 else 0
  {
    var out: seq<Byte> := [];
    if name.Some? {
      var n :- NamePayload(name.value);
      out := RootPayload.AddAll(out, n);
      assert out == n;
    }
    return Ok(out);
  }

  /** for (byte b: value) out.add(b): the bytes of a byte[] appended in order. */
  method AddBytes(out: seq<Byte>, v: seq<JByte>) returns (r: seq<Byte>)
    ensures r == out + UnsignedBytes(v)
  {
    r := out;
    for k := 0 to |v|
      invariant r == out + UnsignedBytes(v[..k])
    {
      UnsignedBytesSnoc(v, k);
      ConcatAssoc(out, UnsignedBytes(v[..k]), [UnsignedByte(v[k])]);
      r := r + [UnsignedByte(v[k])];
    }
    assert v[..|v|] == v;
  }

  lemma UnsignedBytesSnoc(v: seq<JByte>, k: nat)
    requires k < |v|
    ensures UnsignedBytes(v[..k + 1]) == UnsignedBytes(v[..k]) + [UnsignedByte(v[k])]
  {
  }

  /** for (int i: value) for (byte b: ByteBuffer.allocate(4).putInt(i).array()) out.add(b). */
  method AddInts(out: seq<Byte>, v: seq<JInt>) returns (r: seq<Byte>)
    ensures r == out + IntsBytes(v)
  {
    r := out;
    for k := 0 to |v|
      invariant r == out + IntsBytes(v[..k])
    {
      IntsSnoc(v, k);
      ConcatAssoc(out, IntsBytes(v[..k]), IntBytes(v[k]));
      r := RootPayload.AddAll(r, IntBytes(v[k]));
    }
    assert v[..|v|] == v;
  }

  lemma IntsSnoc(v: seq<JInt>, k: nat)
    requires k < |v|
    ensures IntsBytes(v[..k + 1]) == IntsBytes(v[..k]) + IntBytes(v[k])
  {
    assert v[..k + 1] == v[..k] + [v[k]];
    RootPayload.IntsBytesSnoc(v[..k], v[k]);
  }

  /** NBTTagString of this package: a name and a value of at most Short.MAX_VALUE characters. */
  class TagString {
    var name: Option<Str>
    var value: Str

    /** Every value the class stores has passed its length guard. */
    predicate Valid()
      reads this
    {
      JavaLength(value) <= ShortMax
    }

    constructor Init(v: Str)
      requires JavaLength(v) <= ShortMax
      ensures value == v && name.None? && Valid()
    {
      name := None;
      value := v;
    }

    /**
     * NBTTagString(String): a null value throws NullPointerException at its
     * length() call; more than Short.MAX_VALUE characters throw
     * IllegalArgumentException; exactly that many are accepted.
     */
    static method New(v: Option<Str>) returns (r: Result<TagString>)
      ensures r.Ok? <==> v.Some? && JavaLength(v.value) <= ShortMax
      ensures r.Err? ==> r.error == if v.None? then NullPointer else IllegalArgument
      ensures r.Ok? ==> fresh(r.value) && r.value.value == v.value && r.value.name.None? && r.value.Valid()
    {
      if v.None? {
        return Err(NullPointer);
      }
      if JavaLength(v.value) > ShortMax {
        return Err(IllegalArgument);
      }
      var t := new TagString.Init(v.value);
      return Ok(t);
    }

    /** NBTTagString.setValue: the same checks, null first; a refused value is not stored. */
    method SetValue(v: Option<Str>) returns (r: Result<()>)
      requires Valid()
      modifies this`value
      ensures r.Ok? <==> v.Some? && JavaLength(v.value) <= ShortMax
      ensures r.Err? ==> r.error == if v.None? then NullPointer else IllegalArgument
      ensures value == if r.Ok? then v.value else old(value)
      ensures Valid()
    {
      if v.None? {
        return Err(NullPointer);
      }
      if JavaLength(v.value) > ShortMax {
        return Err(IllegalArgument);
      }
      value := v.value;
      return Ok(());
    }

    /** getTagType: the id of a String tag. */
    function GetTagType(): (id: int)
      reads this
      ensures id == KindId(StringTag(value))
    {
      8
    }

    /**
     * NBTTagString.getPayloadBytes: the name's payload when named, then the
     * Short payload of the character count, then the value's bytes in order.
     */
    method GetPayloadBytes() returns (r: Result<seq<Byte>>)
      requires Valid()
      ensures r == WithName(name, StringBytes(value))
      ensures name.None? ==> r.Ok? && |r.value| == 2 + |value| && r.value[2..] == value
      decreases if name.Some? then 5 else 2
    {
      var out :- NameFirst(name);
      var length := new TagShort(JavaLength(value));
      var lengthBytes := length.GetPayloadBytes();
      WithNameNone(ShortBytes(JavaLength(value)));
      out := RootPayload.AddAll(out, lengthBytes.value);
      out := RootPayload.AddAll(out, value);
      ConcatAssoc(NameBytes(name).value, ShortBytes(JavaLength(value)), value);
      return Ok(out);
    }
  }

  /** NBTTagShort of this package. */
  class TagShort {
    var name: Option<Str>
    var value: JShort

    constructor (v: JShort)
      ensures value == v && name.None?
    {
      name := None;
      value := v;
    }

    /** NBTTagShort.setValue: getValue returns v afterwards. */
    method SetValue(v: JShort)
      modifies this`value
      ensures value == v
    {
      value := v;
    }

    /** getTagType: the id of a Short tag. */
    function GetTagType(): (id: int)
      reads this
      ensures id == KindId(ShortTag(value))
    {
      2
    }

    /** NBTTagShort.getPayloadBytes: the name's payload when named, then the two big-endian bytes of the value. */
    method GetPayloadBytes() returns (r: Result<seq<Byte>>)
      ensures r == WithName(name, ShortBytes(value))
      ensures name.None? ==> r.Ok? && |r.value| == 2
      decreases if name.Some? then 5 else 1
    {
      var out :- NameFirst(name);
      out := RootPayload.AddAll(out, ShortBytes(value));
      return Ok(out);
    }
  }

  /** NBTTagByteArray of this package. */
  class TagByteArray {
    var name: Option<Str>
    var value: seq<JByte>

    constructor (v: seq<JByte>)
      ensures value == v && name.None?
    {
      name := None;
      value := v;
    }

    /** NBTTagByteArray.setValue: the array is replaced wholesale. */
    method SetValue(v: seq<JByte>)
      modifies this`value
      ensures value == v
    {
      value := v;
    }

    /** getTagType: id 7. */
    function GetTagType(): (id: int)
      reads this
      ensures id == KindId(ByteArrayTag(value))
    {
      7
    }

    /**
     * NBTTagByteArray.getPayloadBytes: the name's payload when named, the
     * Int payload of the length, then each byte in order.
     */
    method GetPayloadBytes() returns (r: Result<seq<Byte>>)
      ensures r == WithName(name, IntBytes(|value|) + UnsignedBytes(value))
      ensures name.None? ==> r.Ok? && |r.value| == 4 + |value|
    {
      var out :- NameFirst(name);
      out := RootPayload.AddAll(out, IntBytes(|value|));
      out := AddBytes(out, value);
      ConcatAssoc(NameBytes(name).value, IntBytes(|value|), UnsignedBytes(value));
      return Ok(out);
    }
  }

  /** NBTTagIntArray of this package. */
  class TagIntArray {
    var name: Option<Str>
    var value: seq<JInt>

    constructor (v: seq<JInt>)
      ensures value == v && name.None?
    {
      name := None;
      value := v;
    }

    /** NBTTagIntArray.setValue: getValue returns the same array afterwards. */
    method SetValue(v: seq<JInt>)
      modifies this`value
      ensures value == v
    {
      value := v;
    }

    /** getTagType: id 11. */
    function GetTagType(): (id: int)
      reads this
      ensures id == KindId(IntArrayTag(value))
    {
      11
    }

    /**
     * NBTTagIntArray.getPayloadBytes: the name's payload when named, the Int
     * payload of the length, then the four big-endian bytes of each int in
     * order.
     */
    method GetPayloadBytes() returns (r: Result<seq<Byte>>)
      ensures r == WithName(name, IntBytes(|value|) + IntsBytes(value))
      ensures name.None? ==> r.Ok? && |r.value| == 4 + 4 * |value|
    {
      var out :- NameFirst(name);
      out := RootPayload.AddAll(out, IntBytes(|value|));
      out := AddInts(out, value);
      ConcatAssoc(NameBytes(name).value, IntBytes(|value|), IntsBytes(value));
      return Ok(out);
    }
  }

  // ---------------------------------------------------------------------
  // What these classes write, read back by NBTParser's payload readers
  // ---------------------------------------------------------------------

  /** A string of one byte per character reads back as itself. */
  lemma StringReadsBack(v: Str, rest: seq<Byte>)
    requires JavaLength(v) == |v| <= ShortMax
    ensures ParserSpec.StringPayload(StringBytes(v) + rest) == Ok(Read(v, rest))
  {
    RootRoundTrip.StringRoundTrip(v, rest);
  }

  /**
   * A string with more bytes than characters does not: "é", the two bytes
   * C3 A9, is written as 00 01 C3 A9 and read back as the one byte C3,
   * leaving A9 behind.
   */
  lemma StringCharCount(rest: seq<Byte>)
    ensures JavaLength([0xC3, 0xA9]) == 1
    ensures StringBytes([0xC3, 0xA9]) == [0, 1, 0xC3, 0xA9]
    ensures ParserSpec.StringPayload(StringBytes([0xC3, 0xA9]) + rest) == Ok(Read([0xC3], [0xA9] + rest))
  {
    WidthBounds();
    var v: Str := [0xC3, 0xA9];
    TwoByteCharacter(0xC3, 0xA9);
    ShortOfOne();
    var s := StringBytes(v) + rest;
    assert s == EncodeSigned(1, 2) + ([0xC3, 0xA9] + rest);
    ReadSignedEncoded(1, 2, [0xC3, 0xA9] + rest);
    assert ([0xC3, 0xA9] + rest)[..1] == [0xC3];
    assert ([0xC3, 0xA9] + rest)[1..] == [0xA9] + rest;
  }

  /**
   * A character outside the Basic Multilingual Plane is two chars to
   * String.length(): "😀", the four bytes F0 9F 98 80, is written as
   * 00 02 F0 9F 98 80 and read back as F0 9F, leaving 98 80 behind.
   */
  lemma StringSurrogatePair(rest: seq<Byte>)
    ensures JavaLength([0xF0, 0x9F, 0x98, 0x80]) == 2
    ensures StringBytes([0xF0, 0x9F, 0x98, 0x80]) == [0, 2, 0xF0, 0x9F, 0x98, 0x80]
    ensures ParserSpec.StringPayload(StringBytes([0xF0, 0x9F, 0x98, 0x80]) + rest)
      == Ok(Read([0xF0, 0x9F], [0x98, 0x80] + rest))
  {
    WidthBounds();
    var v: Str := [0xF0, 0x9F, 0x98, 0x80];
    FourByteCharacter(0xF0, 0x9F, 0x98, 0x80);
    ShortOfTwo();
    var s := StringBytes(v) + rest;
    assert s == EncodeSigned(2, 2) + (v + rest);
    ReadSignedEncoded(2, 2, v + rest);
    assert (v + rest)[..2] == [0xF0, 0x9F];
    assert (v + rest)[2..] == [0x98, 0x80] + rest;
  }

  lemma ShortOfOne()
    ensures ShortBytes(1) == [0, 1]
  {
    WidthBounds();
    ModOfSmall(1, Pow256(2));
    assert BigEndian(1, 2) == BigEndian(0, 1) + [1];
  }

  lemma ShortOfTwo()
    ensures ShortBytes(2) == [0, 2]
  {
    WidthBounds();
    ModOfSmall(2, Pow256(2));
    assert BigEndian(2, 2) == BigEndian(0, 1) + [2];
  }

  /** The two bytes of a short read back as that short. */
  lemma ShortReadsBack(v: JShort, rest: seq<Byte>)
    ensures ParserSpec.LeafPayload(ShortBytes(v) + rest, ShortId) == Ok(Read(ShortTag(v), rest))
  {
    WidthBounds();
    ReadSignedEncoded(v, 2, rest);
  }

  /** A byte array that fits an int length reads back as itself. */
  lemma ByteArrayReadsBack(v: seq<JByte>, rest: seq<Byte>)
    requires |v| < 0x8000_0000
    ensures ParserSpec.ByteArrayPayload(IntBytes(|v|) + UnsignedBytes(v) + rest) == Ok(Read(v, rest))
  {
    RootRoundTrip.ByteArrayRoundTrip(v, rest);
  }

  /** An int array that fits an int length reads back as itself. */
  lemma IntArrayReadsBack(v: seq<JInt>, rest: seq<Byte>)
    requires |v| < 0x8000_0000
    ensures ParserSpec.IntArrayPayload(IntBytes(|v|) + IntsBytes(v) + rest) == Ok(Read(v, rest))
  {
    RootRoundTrip.IntArrayRoundTrip(v, rest);
  }

  /** The array [1, 3, 8, 3, 17, 12], unnamed, is written as 00 00 00 06 01 03 08 03 11 0C. */
  lemma ByteArrayVector()
    ensures WithName(None, IntBytes(6) + UnsignedBytes([1, 3, 8, 3, 17, 12])) == Ok([0, 0, 0, 6, 1, 3, 8, 3, 17, 12])
  {
    ParserFacts.IntOfSmall(6);
    var v: seq<JByte> := [1, 3, 8, 3, 17, 12];
    WithNameNone(IntBytes(6) + UnsignedBytes(v));
    assert forall i :: 0 <= i < 6 ==> UnsignedBytes(v)[i] == UnsignedByte(v[i]) == v[i];
    assert UnsignedBytes(v) == [1, 3, 8, 3, 17, 12];
    assert IntBytes(6) + UnsignedBytes(v) == [0, 0, 0, 6, 1, 3, 8, 3, 17, 12];
  }
}
