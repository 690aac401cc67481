// Properties of what NBTParser reads: the framing of each kind, the
// behaviour of parseTagCompound at its edges, and the byte vectors of the
// repository's tests, worked through the pure reader of module ParserSpec.
module ParserFacts {
  import opened Bytes
  import opened Tags
  import opened ParserSpec

  // ---------------------------------------------------------------------
  // Small concrete encodings
  // ---------------------------------------------------------------------

  /** A short below 256 is a zero byte followed by its value. */
  lemma ShortOfSmall(v: int)
    requires 0 <= v < 0x100
    ensures ShortBytes(v) == [0, v]
  {
    WidthBounds();
    ModOfSmall(v, Pow256(2));
    assert BigEndian(v, 2) == BigEndian(0, 1) + [v];
  }

  /** An int below 256 is three zero bytes followed by its value. */
  lemma IntOfSmall(v: int)
    requires 0 <= v < 0x100
    ensures IntBytes(v) == [0, 0, 0, v]
  {
    WidthBounds();
    ModOfSmall(v, Pow256(4));
    assert BigEndian(v, 4) == BigEndian(0, 3) + [v];
    assert BigEndian(0, 3) == BigEndian(0, 2) + [0];
  }

  // The ASCII strings of the test vectors.
  const MrYurihi: Str := [0x4D, 0x72, 0x59, 0x75, 0x72, 0x69, 0x68, 0x69]
  const Hello: Str := [0x48, 0x65, 0x6C, 0x6C, 0x6F]
  const Goodbye: Str := [0x47, 0x6F, 0x6F, 0x64, 0x62, 0x79, 0x65]
  const Version: Str := [0x76, 0x65, 0x72, 0x73, 0x69, 0x6F, 0x6E]
  const NameKey: Str := [0x6E, 0x61, 0x6D, 0x65]

  /** A string payload whose length fits one byte reads back that string and leaves what follows. */
  lemma ShortStringReads(str: Str, rest: seq<Byte>)
    requires |str| < 0x100
    ensures StringPayload([0, |str|] + str + rest) == Ok(Read(str, rest))
  {
    WidthBounds();
    ShortOfSmall(|str|);
    var s := [0, |str|] + str + rest;
    assert s == ShortBytes(|str|) + (str + rest);
    ReadSignedEncoded(|str|, 2, str + rest);
    assert (str + rest)[..|str|] == str && (str + rest)[|str|..] == rest;
  }

  /** The test vector 00 08 "MrYurihi" reads as the string MrYurihi. */
  lemma StringVector(rest: seq<Byte>)
    ensures Payload([0x00, 0x08] + MrYurihi + rest, StringId) == Ok(Read(StringTag(MrYurihi), rest))
  {
    ShortStringReads(MrYurihi, rest);
  }

  // ---------------------------------------------------------------------
  // Fixed-width scalars read big-endian
  // ---------------------------------------------------------------------

  /** The unsigned value of a byte string ending in b extends that of its prefix by b. */
  lemma UnsignedSnoc(s: seq<Byte>, b: Byte)
    ensures Unsigned(s + [b]) == Unsigned(s) * 256 + b
  {
    assert (s + [b])[..|s|] == s;
  }

  /** 7A 39 reads as the short 0x7A39. */
  lemma ShortVector(rest: seq<Byte>)
    ensures Payload([0x7A, 0x39] + rest, ShortId) == Ok(Read(ShortTag(0x7A39), rest))
  {
    WidthBounds();
    var s := [0x7A, 0x39] + rest;
    assert s[..2] == [0x7A] + [0x39] && s[2..] == rest;
    UnsignedSnoc([0x7A], 0x39);
    assert [0x7A] + [0x39] == [0x7A, 0x39];
    UnsignedSnoc([], 0x7A);
    assert [] + [0x7A] == [0x7A];
  }

  /** 86 A8 C4 21 reads as the int 0x86A8C421, which is negative in 32 bits. */
  lemma IntVector(rest: seq<Byte>)
    ensures Payload([0x86, 0xA8, 0xC4, 0x21] + rest, IntId) == Ok(Read(IntTag(0x86A8C421 - 0x1_0000_0000), rest))
  {
    WidthBounds();
    var s := [0x86, 0xA8, 0xC4, 0x21] + rest;
    assert s[..4] == [0x86, 0xA8, 0xC4] + [0x21] && s[4..] == rest;
    UnsignedSnoc([0x86, 0xA8, 0xC4], 0x21);
    assert [0x86, 0xA8, 0xC4] + [0x21] == [0x86, 0xA8, 0xC4, 0x21];
    UnsignedSnoc([0x86, 0xA8], 0xC4);
    assert [0x86, 0xA8] + [0xC4] == [0x86, 0xA8, 0xC4];
    UnsignedSnoc([0x86], 0xA8);
    assert [0x86] + [0xA8] == [0x86, 0xA8];
    UnsignedSnoc([], 0x86);
    assert [] + [0x86] == [0x86];
  }

  /** 18 3B 49 D3 0E 01 2A 19 reads as the long 0x183B49D30E012A19. */
  lemma LongVector(rest: seq<Byte>)
    ensures Payload([0x18, 0x3B, 0x49, 0xD3, 0x0E, 0x01, 0x2A, 0x19] + rest, LongId) ==
      Ok(Read(LongTag(0x183B49D30E012A19), rest))
  {
    WidthBounds();
    var s := [0x18, 0x3B, 0x49, 0xD3, 0x0E, 0x01, 0x2A, 0x19] + rest;
    assert s[..8] == [0x18, 0x3B, 0x49, 0xD3, 0x0E, 0x01, 0x2A] + [0x19] && s[8..] == rest;
    UnsignedSnoc([], 0x18);
    assert [] + [0x18] == [0x18];
    assert Unsigned([0x18]) == 0x18;
    UnsignedSnoc([0x18], 0x3B);
    assert [0x18] + [0x3B] == [0x18, 0x3B];
    assert Unsigned([0x18, 0x3B]) == 0x183B;
    UnsignedSnoc([0x18, 0x3B], 0x49);
    assert [0x18, 0x3B] + [0x49] == [0x18, 0x3B, 0x49];
    assert Unsigned([0x18, 0x3B, 0x49]) == 0x183B49;
    UnsignedSnoc([0x18, 0x3B, 0x49], 0xD3);
    assert [0x18, 0x3B, 0x49] + [0xD3] == [0x18, 0x3B, 0x49, 0xD3];
    assert Unsigned([0x18, 0x3B, 0x49, 0xD3]) == 0x183B49D3;
    UnsignedSnoc([0x18, 0x3B, 0x49, 0xD3], 0x0E);
    assert [0x18, 0x3B, 0x49, 0xD3] + [0x0E] == [0x18, 0x3B, 0x49, 0xD3, 0x0E];
    assert Unsigned([0x18, 0x3B, 0x49, 0xD3, 0x0E]) == 0x183B49D30E;
    UnsignedSnoc([0x18, 0x3B, 0x49, 0xD3, 0x0E], 0x01);
    assert [0x18, 0x3B, 0x49, 0xD3, 0x0E] + [0x01] == [0x18, 0x3B, 0x49, 0xD3, 0x0E, 0x01];
    assert Unsigned([0x18, 0x3B, 0x49, 0xD3, 0x0E, 0x01]) == 0x183B49D30E01;
    UnsignedSnoc([0x18, 0x3B, 0x49, 0xD3, 0x0E, 0x01], 0x2A);
    assert [0x18, 0x3B, 0x49, 0xD3, 0x0E, 0x01] + [0x2A] == [0x18, 0x3B, 0x49, 0xD3, 0x0E, 0x01, 0x2A];
    assert Unsigned([0x18, 0x3B, 0x49, 0xD3, 0x0E, 0x01, 0x2A]) == 0x183B49D30E012A;
    UnsignedSnoc([0x18, 0x3B, 0x49, 0xD3, 0x0E, 0x01, 0x2A], 0x19);
    assert [0x18, 0x3B, 0x49, 0xD3, 0x0E, 0x01, 0x2A] + [0x19] == [0x18, 0x3B, 0x49, 0xD3, 0x0E, 0x01, 0x2A, 0x19];
    assert Unsigned([0x18, 0x3B, 0x49, 0xD3, 0x0E, 0x01, 0x2A, 0x19]) == 0x183B49D30E012A19;
    assert Unsigned(s[..8]) == 0x183B49D30E012A19;
    assert ReadSigned(s, 8) == Ok(Read(0x183B49D30E012A19, rest));
  }

  // ---------------------------------------------------------------------
  // Byte arrays: exactly the announced count is read
  // ---------------------------------------------------------------------

  /**
   * 00 00 00 06 01 03 08 03 11 0C reads as the array [1, 3, 8, 3, 17, 12];
   * whatever follows stays unread.
   */
  lemma ByteArrayVector(rest: seq<Byte>)
    ensures Payload([0, 0, 0, 6, 1, 3, 8, 3, 17, 12] + rest, ByteArrayId) ==
      Ok(Read(ByteArrayTag([1, 3, 8, 3, 17, 12]), rest))
  {
    WidthBounds();
    IntOfSmall(6);
    var body: seq<Byte> := [1, 3, 8, 3, 17, 12];
    var s := [0, 0, 0, 6, 1, 3, 8, 3, 17, 12] + rest;
    assert s == IntBytes(6) + (body + rest);
    ReadSignedEncoded(6, 4, body + rest);
    assert (body + rest)[..6] == body && (body + rest)[6..] == rest;
    assert SignedBytes(body) == [1, 3, 8, 3, 17, 12];
  }

  /** A byte array whose stream ends before the announced count fails with EOFException. */
  lemma ByteArrayShortStream(n: int, body: seq<Byte>)
    requires 0 <= n < 0x8000_0000 && |body| < n
    ensures ByteArrayPayload(IntBytes(n) + body) == Err(EndOfStream)
  {
    WidthBounds();
    ReadSignedEncoded(n, 4, body);
  }

  // ---------------------------------------------------------------------
  // Lists and compounds
  // ---------------------------------------------------------------------

  /** readByte of a byte below 0x80 gives that byte as a Java byte. */
  lemma SmallByteReads(b: Byte, rest: seq<Byte>)
    requires b < 0x80
    ensures ReadSigned([b] + rest, 1) == Ok(Read(b, rest))
  {
    WidthBounds();
    assert ([b] + rest)[..1] == [b] && ([b] + rest)[1..] == rest;
    assert SignedByte(b) == b;
  }

  /** An unnamed string element: parseTagById(in, 8, false) on a short string. */
  lemma UnnamedStringElement(str: Str, rest: seq<Byte>)
    requires |str| < 0x100
    ensures TagById([0, |str|] + str + rest, StringId, false) == Ok(Read(Some(Named(None, StringTag(str))), rest))
  {
    ShortStringReads(str, rest);
    UnnamedString([0, |str|] + str + rest);
  }

  /**
   * The list payload 08, count 2, "Hello", "Goodbye" reads as a list of
   * strings holding those two, in order.
   */
  lemma ListVector(rest: seq<Byte>)
    ensures ListPayload([8, 0, 0, 0, 2] + ([0, 5] + Hello) + ([0, 7] + Goodbye) + rest) ==
      Ok(Read(ListTag(StringId, [Some(StringTag(Hello)), Some(StringTag(Goodbye))]), rest))
  {
    WidthBounds();
    var second := [0, 7] + Goodbye + rest;
    var elems := [0, 5] + Hello + second;
    var s := [8, 0, 0, 0, 2] + ([0, 5] + Hello) + ([0, 7] + Goodbye) + rest;
    assert s == [8] + (IntBytes(2) + elems) by {
      IntOfSmall(2);
    }
    SmallByteReads(8, IntBytes(2) + elems);
    ReadSignedEncoded(2, 4, elems);
    assert |Hello| == 5 && |Goodbye| == 7;
    UnnamedStringElement(Hello, second);
    UnnamedStringElement(Goodbye, rest);
    assert Elements(rest, StringId, 0) == Ok(Read([], rest));
    assert [Some(StringTag(Goodbye))] + [] == [Some(StringTag(Goodbye))];
    assert [Some(StringTag(Hello))] + [Some(StringTag(Goodbye))] == [Some(StringTag(Hello)), Some(StringTag(Goodbye))];
    assert Elements(second, StringId, 1) == Ok(Read([Some(StringTag(Goodbye))], rest));
    assert Elements(elems, StringId, 2) == Ok(Read([Some(StringTag(Hello)), Some(StringTag(Goodbye))], rest));
  }

  /** A named member: a type byte has been read, then parseTagById(in, id, true) reads the name and the payload. */
  lemma NamedStringMember(name: Str, str: Str, rest: seq<Byte>)
    requires |name| < 0x100 && |str| < 0x100
    ensures TagById([0, |name|] + name + ([0, |str|] + str) + rest, StringId, true) ==
      Ok(Read(Some(Named(Some(name), StringTag(str))), rest))
  {
    var s := [0, |name|] + name + ([0, |str|] + str) + rest;
    assert s == [0, |name|] + name + ([0, |str|] + str + rest);
    ShortStringReads(name, [0, |str|] + str + rest);
    ShortStringReads(str, rest);
    assert Parsed(s, StringId, true) == WithName(Some(name), Payload([0, |str|] + str + rest, StringId));
  }

  /**
   * The compound payload 03 "version" 00000001 08 "name" "MrYurihi" 00 reads
   * as {version: Int 1, name: String MrYurihi}.
   */
  lemma CompoundVector(rest: seq<Byte>)
    ensures CompoundPayload([3] + ([0, 7] + Version) + [0, 0, 0, 1] + [8] + ([0, 4] + NameKey) + ([0, 8] + MrYurihi) + [0] + rest) ==
      Ok(Read(CompoundTag(map[Version := Some(IntTag(1)), NameKey := Some(StringTag(MrYurihi))]), rest))
  {
    WidthBounds();
    var tail := [0] + rest;
    var second := [0, 4] + NameKey + ([0, 8] + MrYurihi) + tail;
    var afterInt := [8] + second;
    var first := [0, 7] + Version + (IntBytes(1) + afterInt);
    var s := [3] + ([0, 7] + Version) + [0, 0, 0, 1] + [8] + ([0, 4] + NameKey) + ([0, 8] + MrYurihi) + [0] + rest;
    assert s == [3] + first by {
      IntOfSmall(1);
    }
    SmallByteReads(3, first);
    // The first member: name "version", then an int.
    ShortStringReads(Version, IntBytes(1) + afterInt);
    ReadSignedEncoded(1, 4, afterInt);
    assert Payload(IntBytes(1) + afterInt, IntId) == Ok(Read(IntTag(1), afterInt));
    assert Parsed(first, IntId, true) == WithName(Some(Version), Payload(IntBytes(1) + afterInt, IntId));
    assert TagById(first, IntId, true) == Ok(Read(Some(Named(Some(Version), IntTag(1))), afterInt));
    SmallByteReads(8, second);
    // The second member: name "name", then a string; the 0 after it ends the loop.
    NamedStringMember(NameKey, MrYurihi, tail);
    SmallByteReads(0, rest);
    var acc := map[Version := Some(IntTag(1))];
    assert Members(second, StringId, acc) == Ok(Read(acc[NameKey := Some(StringTag(MrYurihi))], rest));
    assert Members(first, IntId, map[]) == Members(second, StringId, acc);
  }

  /**
   * parseTagCompound parses a member before it looks for End: a compound
   * whose first type byte is already 0 gets null from parseTagById and fails
   * on null.getName().
   */
  lemma EmptyCompoundFails(rest: seq<Byte>)
    ensures CompoundPayload([0] + rest) == Err(NullPointer)
  {
    SmallByteReads(0, rest);
    assert TagById(rest, 0, true) == Ok(Read(None, rest));
  }

  /** A named byte member: parseTagById(in, 1, true) reads the name, then one byte. */
  lemma NamedByteMember(key: Str, v: Byte, rest: seq<Byte>)
    requires |key| < 0x100 && v < 0x80
    ensures TagById([0, |key|] + key + ([v] + rest), ByteId, true) == Ok(Read(Some(Named(Some(key), ByteTag(v))), rest))
  {
    var s := [0, |key|] + key + ([v] + rest);
    ShortStringReads(key, [v] + rest);
    SmallByteReads(v, rest);
    assert Parsed(s, ByteId, true) == WithName(Some(key), Payload([v] + rest, ByteId));
  }

  /** Two members under the same name: the later one replaces the earlier. */
  lemma DuplicateKeyLaterWins(key: Str, rest: seq<Byte>)
    requires |key| < 0x100
    ensures CompoundPayload([ByteId] + ([0, |key|] + key) + [5] + [ByteId] + ([0, |key|] + key) + [7] + [0] + rest) ==
      Ok(Read(CompoundTag(map[key := Some(ByteTag(7))]), rest))
  {
    var tail := [0] + rest;
    var second := [0, |key|] + key + ([7] + tail);
    var first := [0, |key|] + key + ([5] + ([ByteId] + second));
    var s := [ByteId] + ([0, |key|] + key) + [5] + [ByteId] + ([0, |key|] + key) + [7] + [0] + rest;
    assert s == [ByteId] + first;
    SmallByteReads(ByteId, first);
    NamedByteMember(key, 5, [ByteId] + second);
    SmallByteReads(ByteId, second);
    NamedByteMember(key, 7, tail);
    SmallByteReads(0, rest);
    var acc := map[key := Some(ByteTag(5))];
    assert Members(second, ByteId, acc) == Ok(Read(acc[key := Some(ByteTag(7))], rest));
    assert Members(first, ByteId, map[]) == Members(second, ByteId, acc);
    assert acc[key := Some(ByteTag(7))] == map[key := Some(ByteTag(7))];
  }
}
