// The test vectors of NBTTagTest read through newTagByType of the package
// mryurihi.tbnbt.tag, and the behaviour of that package's compound on the
// wire: the compound vector cannot be read by a fresh compound, and a
// compound that has a map reads one more name after the closing 0.
module TagFacts {
  import opened Bytes
  import opened Tags
  import ParserSpec
  import ParserFacts
  import TagSpec

  /**
   * The scalar and string vectors: 12 is Byte 0x12, 7A 39 is Short 0x7A39,
   * 86 A8 C4 21 is Int 0x86A8C421, 18 3B 49 D3 0E 01 2A 19 is Long
   * 0x183B49D30E012A19, and 00 08 "MrYurihi" is String "MrYurihi".
   */
  lemma LeafVectors(rest: seq<Byte>)
    ensures TagSpec.NewTagByType([0x12] + rest, ByteId) == Ok(Read(Some(ByteTag(0x12)), rest))
    ensures TagSpec.NewTagByType([0x7A, 0x39] + rest, ShortId) == Ok(Read(Some(ShortTag(0x7A39)), rest))
    ensures TagSpec.NewTagByType([0x86, 0xA8, 0xC4, 0x21] + rest, IntId) ==
      Ok(Read(Some(IntTag(0x86A8C421 - 0x1_0000_0000)), rest))
    ensures TagSpec.NewTagByType([0x18, 0x3B, 0x49, 0xD3, 0x0E, 0x01, 0x2A, 0x19] + rest, LongId) ==
      Ok(Read(Some(LongTag(0x183B49D30E012A19)), rest))
    ensures TagSpec.NewTagByType([0x00, 0x08] + ParserFacts.MrYurihi + rest, StringId) ==
      Ok(Read(Some(StringTag(ParserFacts.MrYurihi)), rest))
  {
    ParserFacts.SmallByteReads(0x12, rest);
    ParserFacts.ShortVector(rest);
    ParserFacts.IntVector(rest);
    ParserFacts.LongVector(rest);
    ParserFacts.StringVector(rest);
  }

  /** An unnamed string element of a list, read by newTagByType(STRING). */
  lemma StringElement(str: Str, rest: seq<Byte>)
    requires |str| < 0x100
    ensures TagSpec.NewTagByType([0, |str|] + str + rest, StringId) == Ok(Read(Some(StringTag(str)), rest))
  {
    ParserFacts.ShortStringReads(str, rest);
  }

  /**
   * The list vector 08, count 2, "Hello", "Goodbye" reads as a STRING list
   * of those two strings, in order.
   */
  lemma ListVector(rest: seq<Byte>)
    ensures TagSpec.NewTagByType([8, 0, 0, 0, 2] + ([0, 5] + ParserFacts.Hello) + ([0, 7] + ParserFacts.Goodbye) + rest, ListId) ==
      Ok(Read(Some(ListTag(StringId, [Some(StringTag(ParserFacts.Hello)), Some(StringTag(ParserFacts.Goodbye))])), rest))
  {
    WidthBounds();
    var hello, goodbye := ParserFacts.Hello, ParserFacts.Goodbye;
    var second := [0, 7] + goodbye + rest;
    var elems := [0, 5] + hello + second;
    var s := [8, 0, 0, 0, 2] + ([0, 5] + hello) + ([0, 7] + goodbye) + rest;
    assert s == [8] + (IntBytes(2) + elems) by {
      ParserFacts.IntOfSmall(2);
    }
    ParserFacts.SmallByteReads(8, IntBytes(2) + elems);
    ReadSignedEncoded(2, 4, elems);
    assert |hello| == 5 && |goodbye| == 7;
    StringElement(hello, second);
    StringElement(goodbye, rest);
    var one := [Some(StringTag(goodbye))];
    assert TagSpec.Elements(rest, StringId, 0) == Ok(Read([], rest));
    assert one + [] == one;
    assert TagSpec.Elements(second, StringId, 1) == Ok(Read(one, rest));
    assert [Some(StringTag(hello))] + one == [Some(StringTag(hello)), Some(StringTag(goodbye))];
    assert TagSpec.Elements(elems, StringId, 2) == Ok(Read([Some(StringTag(hello)), Some(StringTag(goodbye))], rest));
    assert TagSpec.ListRead(s) == Ok(Read(ListTag(StringId, [Some(StringTag(hello)), Some(StringTag(goodbye))]), rest));
  }

  /** The compound vector 03 "version" 00000001 08 "name" "MrYurihi" 00. */
  function CompoundBytes(): seq<Byte> {
    [3] + ([0, 7] + ParserFacts.Version) + [0, 0, 0, 1] + [8] + ([0, 4] + ParserFacts.NameKey) + ([0, 8] + ParserFacts.MrYurihi) + [0]
  }

  /** The same vector cut at its members: the first member, then the second, then the closing 0. */
  lemma CompoundBytesSplit(tail: seq<Byte>)
    ensures CompoundBytes() + tail ==
      [3] + ([0, 7] + ParserFacts.Version + (IntBytes(1) + ([8] + ([0, 4] + ParserFacts.NameKey + ([0, 8] + ParserFacts.MrYurihi + ([0] + tail))))))
  {
    ParserFacts.IntOfSmall(1);
    var a, b, c, d := [3], [0, 7] + ParserFacts.Version, IntBytes(1), [8];
    var e, f, g := [0, 4] + ParserFacts.NameKey, [0, 8] + ParserFacts.MrYurihi, [0];
    ConcatAssoc(a + b + c + d + e + f, g, tail);
    ConcatAssoc(a + b + c + d + e, f, g + tail);
    ConcatAssoc(a + b + c + d, e, f + (g + tail));
    ConcatAssoc(a + b + c, d, e + (f + (g + tail)));
    ConcatAssoc(a + b, c, d + (e + (f + (g + tail))));
    ConcatAssoc(a, b, c + (d + (e + (f + (g + tail)))));
  }

  /**
   * One pass of the member loop: the type byte typ, a name, and a child of
   * that type.  A null map fails; a map gets the child under the name, and
   * the loop stops after a type byte of 0.
   */
  lemma MemberStep(typ: Byte, rest: seq<Byte>, name: Str, afterName: seq<Byte>, child: Slot, after: seq<Byte>, acc: map<Str, Slot>)
    requires typ <= LongArrayId
    requires ParserSpec.StringPayload(rest) == Ok(Read(name, afterName))
    requires TagSpec.NewTagByType(afterName, typ) == Ok(Read(child, after))
    ensures TagSpec.Members([typ] + rest, None) == Err(NullPointer)
    ensures TagSpec.Members([typ] + rest, Some(acc)) ==
      if typ == 0 then Ok(Read(acc[name := child], after)) else TagSpec.Members(after, Some(acc[name := child]))
  {
    ParserFacts.SmallByteReads(typ, rest);
  }

  /** The first member of the vector: type 03, name "version", the int 1. */
  lemma FirstMember(afterInt: seq<Byte>)
    ensures ParserSpec.StringPayload([0, 7] + ParserFacts.Version + (IntBytes(1) + afterInt)) ==
      Ok(Read(ParserFacts.Version, IntBytes(1) + afterInt))
    ensures TagSpec.NewTagByType(IntBytes(1) + afterInt, IntId) == Ok(Read(Some(IntTag(1)), afterInt))
  {
    WidthBounds();
    assert |ParserFacts.Version| == 7;
    ParserFacts.ShortStringReads(ParserFacts.Version, IntBytes(1) + afterInt);
    ReadSignedEncoded(1, 4, afterInt);
  }

  /** The second member of the vector: type 08, name "name", the string "MrYurihi". */
  lemma SecondMember(tail: seq<Byte>)
    ensures ParserSpec.StringPayload([0, 4] + ParserFacts.NameKey + ([0, 8] + ParserFacts.MrYurihi + tail)) ==
      Ok(Read(ParserFacts.NameKey, [0, 8] + ParserFacts.MrYurihi + tail))
    ensures TagSpec.NewTagByType([0, 8] + ParserFacts.MrYurihi + tail, StringId) ==
      Ok(Read(Some(StringTag(ParserFacts.MrYurihi)), tail))
  {
    assert |ParserFacts.NameKey| == 4 && |ParserFacts.MrYurihi| == 8;
    ParserFacts.ShortStringReads(ParserFacts.NameKey, [0, 8] + ParserFacts.MrYurihi + tail);
    StringElement(ParserFacts.MrYurihi, tail);
  }

  /** The first two passes over the vector followed by tail, into the map acc. */
  lemma TwoMembers(tail: seq<Byte>, acc: map<Str, Slot>)
    ensures TagSpec.Members(CompoundBytes() + tail, None) == Err(NullPointer)
    ensures TagSpec.Members(CompoundBytes() + tail, Some(acc)) ==
      TagSpec.Members([0] + tail, Some(acc[ParserFacts.Version := Some(IntTag(1))][ParserFacts.NameKey := Some(StringTag(ParserFacts.MrYurihi))]))
  {
    var second := [0, 4] + ParserFacts.NameKey + ([0, 8] + ParserFacts.MrYurihi + ([0] + tail));
    CompoundBytesSplit(tail);
    FirstMember([8] + second);
    MemberStep(3, [0, 7] + ParserFacts.Version + (IntBytes(1) + ([8] + second)), ParserFacts.Version,
      IntBytes(1) + ([8] + second), Some(IntTag(1)), [8] + second, acc);
    SecondMember([0] + tail);
    MemberStep(8, second, ParserFacts.NameKey, [0, 8] + ParserFacts.MrYurihi + ([0] + tail),
      Some(StringTag(ParserFacts.MrYurihi)), [0] + tail, acc[ParserFacts.Version := Some(IntTag(1))]);
  }

  /**
   * The compound vector, read by a compound that has no map (the one
   * newTagByType creates): the first member is read, then its put fails.
   */
  lemma CompoundVectorFails(rest: seq<Byte>)
    ensures TagSpec.NewTagByType(CompoundBytes() + rest, CompoundId).Err?
    ensures TagSpec.Members(CompoundBytes() + rest, None) == Err(NullPointer)
  {
    TwoMembers(rest, map[]);
  }

  /**
   * The compound vector, read by a compound that has a map: after the
   * closing 0 the loop still reads a name and stores null under it, so two
   * more bytes (here the empty name 00 00) are consumed ...
   */
  lemma CompoundVectorReadsPastEnd(rest: seq<Byte>)
    ensures TagSpec.Members(CompoundBytes() + ([0, 0] + rest), Some(map[])) ==
      Ok(Read(map[ParserFacts.Version := Some(IntTag(1)), ParserFacts.NameKey := Some(StringTag(ParserFacts.MrYurihi)), [] := None], rest))
  {
    var m2 := map[ParserFacts.Version := Some(IntTag(1))][ParserFacts.NameKey := Some(StringTag(ParserFacts.MrYurihi))];
    TwoMembers([0, 0] + rest, map[]);
    var empty: Str := [];
    ParserFacts.ShortStringReads(empty, rest);
    assert [0, |empty|] + empty + rest == [0, 0] + rest;
    MemberStep(0, [0, 0] + rest, empty, rest, None, rest, m2);
  }

  /** ... and when nothing follows the closing 0, as in the test, reading it fails with EOFException. */
  lemma CompoundVectorEndsEarly()
    ensures TagSpec.Members(CompoundBytes(), Some(map[])) == Err(EndOfStream)
  {
    var m2 := map[ParserFacts.Version := Some(IntTag(1))][ParserFacts.NameKey := Some(StringTag(ParserFacts.MrYurihi))];
    TwoMembers([], map[]);
    assert CompoundBytes() + [] == CompoundBytes();
    ParserFacts.SmallByteReads(0, []);
    assert [0] + [] == [0];
  }

  /**
   * writePayloadBytes forgets the members: any two compounds write the same
   * single 0 and are left equal, so what a compound held cannot be recovered
   * from what it wrote.
   */
  lemma CompoundWriteForgets(m1: map<Str, Slot>, m2: map<Str, Slot>)
    ensures TagSpec.WriteOut(CompoundTag(m1)) == TagSpec.WriteOut(CompoundTag(m2))
    ensures TagSpec.WriteOut(CompoundTag(m1)).bytes == [0]
  {
  }
}
