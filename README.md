# TBNBT codec, modelled in Dafny

TBNBT reads and writes NBT, the Named Binary Tag format. An NBT document is a type
byte, a name (a signed 16-bit length and that many bytes) and a payload. The
root parser reads the length with `readShort`, so a prefix of 0x8000 or more is
negative and the read throws NegativeArraySizeException. The
payload depends on the tag type:

- big-endian integers of 1, 2, 4 or 8 bytes;
- IEEE bit patterns for Float and Double;
- a 32-bit length and then bytes or ints for the arrays;
- a 16-bit length and bytes for String;
- an element type, a 32-bit count and unnamed payloads for List;
- named members ended by an End byte (0) for Compound.

The repository holds three generations of this codec side by side, and this model
covers all of them:

- **The root package** (`mryurihi.tbnbt`):
  - `NBTParser` is the recursive reader.
  - The tag classes build their payload as byte lists (`getPayloadBytes`).
  - `NBTOutputStream.writeTag` writes a document.
  - Modules: `ParserSpec` (what the reader reads, as functions), `NBTParser` (the
    reader's methods proved against them), `RootCodec` (what the tags write),
    `RootPayload` (the imperative `getPayloadBytes` methods proved against
    `RootCodec`), `RootTags` (the tag objects with their names and mutators),
    `RootRoundTrip` (write-then-parse) and `ParserFacts` (the test vectors and
    edge cases).
- **The tag package** (`mryurihi.tbnbt.tag` and the `NBTTagByte` of
  `com.github.mryurihi.tbnbt.tag`):
  - The tags read and write themselves through `newTagByType`,
    `readPayloadBytes` and `writePayloadBytes`.
  - Modules: `TagSpec`, `TagObjects`, `TagLeaves`, `ComByte` and `TagFacts`.
- **The adapter layer** (`mryurihi.tbnbt.adapter`):
  - `AdapterRegistry` maps a Java type to an `NBTAdapter` through a cascade:
    fixed primitives, then registered classes, then factories, then
    interfaces, then the superclass.
  - The Object, Map, Array, Byte and Long adapters convert between Java values
    and NBT.
  - The stream package frames such a value as a document with an empty name.
  - Modules: `AdapterTypes` (the class graph reflection would show),
    `Resolution` (the cascade), `Registry` (the registry object),
    `AdapterSpec` (what each adapter reads and writes, as functions),
    `AdapterIO` (the adapters' loops as methods), `AdapterRoundTrip` and
    `AdapterCollections` (the round trips), and `NBTStreams` (the stream
    classes).

Shared modules:

- `Bytes`: Java integer widths and two's complement.
- `Tags`: the tag datatype and the kind ids 0 to 12.
- `KeyOrder`: the iteration order of a `HashMap`, taken as a fixed
  permutation of its keys.
- `Streams`: the `DataInputStream`/`DataOutputStream` the code writes to and
  reads from, as classes over a byte sequence.

The main results:

- Every well-formed root tag, written by `getPayloadBytes`, parses back to the
  same tag and name (`RootRoundTrip.RoundTrip`).
- Every readable tag-package tag written by `writePayloadBytes` reads back
  through `newTagByType` (`TagSpec.RoundTrip`). The compound class is the
  exception: its write wipes it (`TagFacts.CompoundWriteForgets`).
- An object of plain leaf fields, a map of leaf values and an array of leaf
  values each survive `writeFromObject` followed by `readToType`
  (`NBTStreams.ObjectDocumentRoundTrip`, `MapDocumentRoundTrip`,
  `ArrayDocumentRoundTrip`, `LeafDocumentRoundTrip`). For a map this holds only
  with the corrected `fromNBT` (see Findings). Every array class extends
  Object, so the array factory is reached only for `Object[]`, and its
  content adapter is the one `Object` resolves to. A new registry resolves
  `Object` to `ObjectAdapter`. The array round trip therefore needs a
  registration such as `registerAdapter(Object.class, ByteAdapter.class)`.
- The registry cascade always yields an adapter of a known class. It returns
  null only when no class above the type has an adapter, and it prefers
  primitives, then registrations, then factories, then interfaces in order,
  then the superclass (`Resolution.*`).

The model keeps the source's behaviour on these edge cases:

- The root `parseTagCompound` fails on an empty compound.
- The string writers use the character count as the length prefix. For a
  string with more bytes than characters, the two packages differ:
  - The root `NBTTagString` sizes its buffer by the character count, so
    the write throws ArrayIndexOutOfBoundsException (`RootCodec.StringBody`).
  - The tag-package `NBTTagString` writes the short prefix and all the bytes,
    and the result does not read back (`TagLeaves.StringCharCount`,
    `TagLeaves.StringSurrogatePair`).
- The tag-package compound's `writePayloadBytes` clears the compound and
  writes only the End byte.

## Model

| member | source | states |
|---|---|---|
| Tags.KindId | src/main/java/mryurihi/tbnbt/NBTTagString.java:62-65 | getTagType of every tag class answers a kind id between Byte (1) and LongArray (12) |
| Tags.SlotKind | src/main/java/mryurihi/tbnbt/tag/NBTTagList.java:40-46 | the kind of a list slot is defined exactly when the slot is not null and is then the tag's kind |
| Tags.CastTo | src/main/java/mryurihi/tbnbt/tag/NBTTag.java:56-137 | getAsTag* succeeds iff the requested kind is the tag's own, returns the receiver itself, and otherwise throws ClassCastException |
| RootTags.NBTTag.GetAs | src/main/java/mryurihi/tbnbt/NBTTag.java:50-88 | the root getAsTag* casts: Ok with the receiver iff the kind matches, else ClassCastException |
| ParserSpec.SlotOf | src/main/java/mryurihi/tbnbt/NBTParser.java:137-151 | a parsed element is stored as a non-null slot exactly when parseTagById returned a tag |
| ParserSpec.StringPayload | src/main/java/mryurihi/tbnbt/NBTParser.java:123-135 | a string read takes its 2-byte length and that many bytes, and the value is at most Short.MAX_VALUE long |
| ParserSpec.StringPayloadConsumed | src/main/java/mryurihi/tbnbt/NBTParser.java:123-135 | a successful string read consumed exactly the length prefix and the value |
| ParserSpec.NameOf | src/main/java/mryurihi/tbnbt/NBTParser.java:53-60 | a name is read iff the tag is named; unnamed reads consume nothing |
| ParserSpec.ByteArrayPayload | src/main/java/mryurihi/tbnbt/NBTParser.java:108-121 | a byte array read consumes the 4-byte length and that many bytes |
| ParserSpec.ByteArrayPayloadConsumed | src/main/java/mryurihi/tbnbt/NBTParser.java:108-121 | the consumed bytes are exactly the length prefix followed by the bytes read |
| ParserSpec.Ints | src/main/java/mryurihi/tbnbt/NBTParser.java:176-178 | reading n ints yields n values and consumes 4n bytes |
| ParserSpec.IntsConsumed | src/main/java/mryurihi/tbnbt/NBTParser.java:176-178 | the consumed bytes are exactly the big-endian encodings of the ints read |
| ParserSpec.IntArrayPayload | src/main/java/mryurihi/tbnbt/NBTParser.java:169-181 | an int array read consumes the 4-byte length and 4 bytes per element |
| ParserSpec.IntArrayPayloadFrom | src/main/java/mryurihi/tbnbt/NBTParser.java:169-181 | an int array is the length read followed by that many ints |
| ParserSpec.IntArrayPayloadConsumed | src/main/java/mryurihi/tbnbt/NBTParser.java:169-181 | the consumed bytes are the length prefix followed by the encodings of the elements |
| ParserSpec.TagById | src/main/java/mryurihi/tbnbt/NBTParser.java:35-51 | parseTagById returns a tag of kind id (named iff asked) for ids 1..11 and null, consuming nothing, for any other id |
| ParserSpec.Parsed | src/main/java/mryurihi/tbnbt/NBTParser.java:53-181 | each parseTag* returns a tag of its own kind, named iff asked, and consumes at least one byte |
| ParserSpec.UnnamedString | src/main/java/mryurihi/tbnbt/NBTParser.java:123-135 | an unnamed parseTagString succeeds iff the payload read does, with the same error or the same value |
| ParserSpec.WithName | src/main/java/mryurihi/tbnbt/NBTParser.java:53-60 | attaching the name read leaves success unchanged and sets exactly that name |
| ParserSpec.Payload | src/main/java/mryurihi/tbnbt/NBTParser.java:53-181 | a payload read yields a tag of the requested kind and consumes at least one byte |
| ParserSpec.LeafPayload | src/main/java/mryurihi/tbnbt/NBTParser.java:53-135 | the same for the non-container kinds |
| ParserSpec.ListPayload | src/main/java/mryurihi/tbnbt/NBTParser.java:137-151 | a list read yields a list tag and consumes at least one byte |
| ParserSpec.Elements | src/main/java/mryurihi/tbnbt/NBTParser.java:145-147 | reading n elements yields n slots, each of the element kind, or all null when the element id is not a tag kind |
| ParserSpec.CompoundPayload | src/main/java/mryurihi/tbnbt/NBTParser.java:153-167 | a compound read yields a compound tag and consumes at least one byte |
| ParserSpec.Members | src/main/java/mryurihi/tbnbt/NBTParser.java:158-165 | the member loop keeps every key already read, and each new key holds a tag |
| ParserSpec.CompoundPayloadFrom | src/main/java/mryurihi/tbnbt/NBTParser.java:153-167 | a compound is its first type byte followed by the member loop from an empty map |
| ParserSpec.ElementsStep | src/main/java/mryurihi/tbnbt/NBTParser.java:145-147 | one unrolling of the element loop: the first element, then the remaining n-1 |
| ParserSpec.MembersStop | src/main/java/mryurihi/tbnbt/NBTParser.java:158-165 | a member followed by a 0 byte ends the compound with that member put in |
| ParserSpec.MembersContinue | src/main/java/mryurihi/tbnbt/NBTParser.java:158-165 | a member followed by another type byte continues the loop with that member put in |
| ParserSpec.ParsedFrom | src/main/java/mryurihi/tbnbt/NBTParser.java:53-60 | a named tag is its name read followed by its payload read |
| NBTParser.ParseTagById | src/main/java/mryurihi/tbnbt/NBTParser.java:35-51 | the dispatch method reads exactly what ParserSpec.TagById describes and leaves the rest of the stream |
| NBTParser.ParseName | src/main/java/mryurihi/tbnbt/NBTParser.java:55-57 | reading the name agrees with ParserSpec.NameOf |
| NBTParser.ParseTagFixed | src/main/java/mryurihi/tbnbt/NBTParser.java:53-106 | parseTagByte/Short/Int/Long/Float/Double agree with ParserSpec.Parsed |
| NBTParser.ParseTagString | src/main/java/mryurihi/tbnbt/NBTParser.java:123-135 | parseTagString agrees with ParserSpec.Parsed |
| NBTParser.ReadStringPayload | src/main/java/mryurihi/tbnbt/NBTParser.java:128-133 | the character loop agrees with ParserSpec.StringPayload |
| NBTParser.ParseTagByteArray | src/main/java/mryurihi/tbnbt/NBTParser.java:108-121 | parseTagByteArray agrees with ParserSpec.Parsed |
| NBTParser.ReadByteArrayPayload | src/main/java/mryurihi/tbnbt/NBTParser.java:113-119 | the byte loop agrees with ParserSpec.ByteArrayPayload |
| NBTParser.ParseTagIntArray | src/main/java/mryurihi/tbnbt/NBTParser.java:169-181 | parseTagIntArray agrees with ParserSpec.Parsed |
| NBTParser.ReadIntArrayPayload | src/main/java/mryurihi/tbnbt/NBTParser.java:174-179 | the length and the int loop agree with ParserSpec.IntArrayPayload |
| NBTParser.ReadInts | src/main/java/mryurihi/tbnbt/NBTParser.java:176-178 | the int loop agrees with ParserSpec.Ints |
| NBTParser.ParseTagList | src/main/java/mryurihi/tbnbt/NBTParser.java:137-151 | parseTagList agrees with ParserSpec.Parsed |
| NBTParser.ReadListPayload | src/main/java/mryurihi/tbnbt/NBTParser.java:138-149 | the element loop agrees with ParserSpec.ListPayload |
| NBTParser.ParseTagCompound | src/main/java/mryurihi/tbnbt/NBTParser.java:153-167 | parseTagCompound agrees with ParserSpec.Parsed |
| NBTParser.ReadCompoundPayload | src/main/java/mryurihi/tbnbt/NBTParser.java:154-166 | the do-while member loop agrees with ParserSpec.CompoundPayload |
| NBTParser.MembersAsCompound | src/main/java/mryurihi/tbnbt/NBTParser.java:166 | wrapping the members read into an NBTTagCompound fails exactly when the member read failed |
| ParserFacts.SmallByteReads | src/main/java/mryurihi/tbnbt/NBTParser.java:53-60 | a byte below 0x80 reads as the same Java byte |
| ParserFacts.ShortStringReads | src/main/java/mryurihi/tbnbt/NBTParser.java:123-135 | a string shorter than 256 bytes behind its 2-byte length reads back exactly |
| ParserFacts.StringVector | src/test/java/com/github/mryurihi/tbnbt/tag/NBTTagTest.java:122-131 | 00 08 "MrYurihi" parses as the string MrYurihi |
| ParserFacts.ShortVector | src/test/java/com/github/mryurihi/tbnbt/tag/NBTTagTest.java:70-75 | 7A 39 parses as the short 0x7A39 |
| ParserFacts.IntVector | src/test/java/com/github/mryurihi/tbnbt/tag/NBTTagTest.java:77-82 | 86 A8 C4 21 parses as the negative int 0x86A8C421 |
| ParserFacts.LongVector | src/test/java/com/github/mryurihi/tbnbt/tag/NBTTagTest.java:84-92 | the 8-byte vector parses as the long 0x183B49D30E012A19 |
| ParserFacts.ByteArrayVector | src/test/java/com/github/mryurihi/tbnbt/tag/NBTTagByteArrayTest.java:56-66 | 00 00 00 06 01 03 08 03 11 0C parses as the byte array [1,3,8,3,17,12] |
| ParserFacts.ByteArrayShortStream | src/test/java/com/github/mryurihi/tbnbt/tag/NBTTagByteArrayTest.java:80-87 | a byte array whose stream ends before its length is reached fails with EOFException |
| ParserFacts.UnnamedStringElement | src/main/java/mryurihi/tbnbt/NBTParser.java:145-147 | an unnamed short string element parses through parseTagById |
| ParserFacts.ListVector | src/test/java/com/github/mryurihi/tbnbt/tag/NBTTagTest.java:133-145 | the list vector parses as a String list holding "Hello" and "Goodbye" |
| ParserFacts.NamedStringMember | src/main/java/mryurihi/tbnbt/NBTParser.java:123-135 | a named string member reads its name and then its value |
| ParserFacts.CompoundVector | src/test/java/com/github/mryurihi/tbnbt/tag/NBTTagTest.java:147-164 | the compound vector parses as {version: 1, name: "MrYurihi"} |
| ParserFacts.EmptyCompoundFails | src/main/java/mryurihi/tbnbt/NBTParser.java:159-162 | a compound whose first type byte is End fails with NullPointerException, because the member is parsed before the End test |
| ParserFacts.NamedByteMember | src/main/java/mryurihi/tbnbt/NBTParser.java:53-60 | a named byte member reads its name and its byte |
| ParserFacts.DuplicateKeyLaterWins | src/main/java/mryurihi/tbnbt/NBTParser.java:161-163 | when a key appears twice in a compound, the later member replaces the earlier one |
| RootCodec.StringBody | src/main/java/mryurihi/tbnbt/NBTTagString.java:44-55 | the string payload exists iff the character count fits a short and equals the byte count; it is the 2-byte count and the bytes |
| RootCodec.NameBytes | src/main/java/mryurihi/tbnbt/NBTTagString.java:56-58 | an unnamed tag adds no name bytes |
| RootCodec.Encoded | src/main/java/mryurihi/tbnbt/NBTTagList.java:86-105 | a tag's payload bytes are its name's bytes followed by its body, and exist whenever both parts do |
| RootCodec.CompoundBodyFirst | src/main/java/mryurihi/tbnbt/NBTTagCompound.java:74-86 | a compound body is the first member's type byte and named payload, then the other members, then 0 |
| RootCodec.NameFirst | src/main/java/mryurihi/tbnbt/NBTTagCompound.java:77 | a tag that adds its name before its body has bytes iff the name and the body both do, namely the name's bytes then the body; a name that fails decides the error |
| RootCodec.NameLast | src/main/java/mryurihi/tbnbt/NBTTagList.java:86-105 | a tag that adds its name after building its body has bytes iff both parts do, the name's bytes then the body; a body that fails decides the error |
| RootCodec.Body | src/main/java/mryurihi/tbnbt/NBTTagList.java:86-105 | a body fails only with NullPointerException, IllegalArgumentException, ArrayIndexOutOfBoundsException or an unknown tag type; a list body starts with the element type byte and the 4-byte count, and a compound body ends with 0 |
| RootCodec.LeafBody | src/main/java/mryurihi/tbnbt/NBTTagString.java:44-55 | a leaf body exists iff the tag is not a long array (unknown to the root package) and, for a string, the string body exists; it is 1, 2, 4 or 8 bytes for the integers, the 4-byte length and the bytes for a byte array, the 2-byte count and the characters for a string, and 4 + 4n bytes for an int array |
| RootCodec.ElemsBytes | src/main/java/mryurihi/tbnbt/NBTTagList.java:96 | the element loop fails only with the payload errors |
| RootCodec.ElemsBytesOk | src/main/java/mryurihi/tbnbt/NBTTagList.java:96 | the elements from index i on have bytes iff every one of them is present and has bytes |
| RootCodec.MembersBytes | src/main/java/mryurihi/tbnbt/NBTTagCompound.java:78-83 | the member loop fails only with the payload errors |
| RootCodec.MembersBytesOk | src/main/java/mryurihi/tbnbt/NBTTagCompound.java:78-83 | the members from position j on have bytes iff every one of them is present and has bytes under its key |
| RootRoundTrip.RoundTrip | src/main/java/mryurihi/tbnbt/NBTTagList.java:86-105 | every well-formed tag under any short name writes successfully and parseTag* reads back exactly that tag and name, leaving what follows |
| RootRoundTrip.TagByIdRoundTrip | src/main/java/mryurihi/tbnbt/NBTParser.java:35-51 | the same through parseTagById with the tag's own kind id |
| RootRoundTrip.BodyRoundTrip | src/main/java/mryurihi/tbnbt/NBTParser.java:53-181 | every well-formed tag's body reads back as the same tag |
| RootRoundTrip.LeafRoundTrip | src/main/java/mryurihi/tbnbt/NBTTagShort.java:46-52 | the same for the non-container kinds |
| RootRoundTrip.NumberRoundTrip | src/main/java/mryurihi/tbnbt/NBTParser.java:53-87 | byte, short, int and long bodies read back as the same number |
| RootRoundTrip.BitsRoundTrip | src/main/java/mryurihi/tbnbt/NBTParser.java:89-106 | float and double bit patterns read back unchanged |
| RootRoundTrip.ArrayRoundTrip | src/main/java/mryurihi/tbnbt/NBTTagByteArray.java:42-53 | byte array, string and int array bodies read back unchanged |
| RootRoundTrip.IntArrayRoundTrip | src/main/java/mryurihi/tbnbt/NBTTagIntArray.java:46-59 | an int array's length and ints read back as the array |
| RootRoundTrip.ByteArrayRoundTrip | src/main/java/mryurihi/tbnbt/NBTTagByteArray.java:42-53 | a byte array's length and bytes read back as the array |
| RootRoundTrip.ListRoundTrip | src/main/java/mryurihi/tbnbt/NBTTagList.java:86-105 | a well-formed list body reads back as the same list |
| RootRoundTrip.ElemsRoundTrip | src/main/java/mryurihi/tbnbt/NBTTagList.java:96 | the elements written from index i on read back as the same suffix of elements |
| RootRoundTrip.CompoundRoundTrip | src/main/java/mryurihi/tbnbt/NBTTagCompound.java:74-86 | a non-empty well-formed compound body reads back as the same members, whatever the HashMap order |
| RootRoundTrip.MembersRoundTrip | src/main/java/mryurihi/tbnbt/NBTTagCompound.java:78-84 | from the j-th key on, the member loop completes the map read so far to the whole compound |
| RootRoundTrip.StringRoundTrip | src/main/java/mryurihi/tbnbt/NBTParser.java:123-135 | a string of at most Short.MAX_VALUE bytes behind its length reads back exactly |
| RootRoundTrip.NameRoundTrip | src/main/java/mryurihi/tbnbt/NBTParser.java:55-57 | a good name writes and reads back as itself; no name reads as none |
| RootRoundTrip.IntsRoundTrip | src/main/java/mryurihi/tbnbt/NBTParser.java:176-178 | encoded ints read back as the same ints |
| RootPayload.After | src/main/java/mryurihi/tbnbt/NBTTagList.java:96 | prefixing bytes keeps success or failure unchanged |
| RootPayload.AddAll | src/main/java/mryurihi/tbnbt/NBTTagCompound.java:77 | addAll appends exactly the given bytes to the list |
| RootPayload.ListToArray | src/main/java/mryurihi/tbnbt/NBTTag.java:36-40 | listToArray returns an array of the list's length holding the list's bytes in order |
| RootPayload.StringOut | src/main/java/mryurihi/tbnbt/NBTTagString.java:44-55 | the string payload loop succeeds iff the byte count equals the character count (else ArrayIndexOutOfBounds); the output is the 2-byte count and the bytes |
| RootPayload.ShortPayloadOut | src/main/java/mryurihi/tbnbt/NBTTagShort.java:46-52 | a short's payload is its two big-endian bytes |
| RootPayload.StringBytes | src/main/java/mryurihi/tbnbt/NBTTagString.java:44-60 | NBTTagString.getPayloadBytes of an unnamed string is RootCodec.StringBody |
| RootPayload.AddName | src/main/java/mryurihi/tbnbt/NBTTagString.java:56-58 | the call to addName, which no source file defines: taken to return the name's String payload (2-byte count, then the bytes) followed by the bytes built so far, the original bytes for a null name, and the String guard's error for a name that guard refuses |
| RootPayload.ByteArrayOut | src/main/java/mryurihi/tbnbt/NBTTagByteArray.java:42-53 | the array holds the 4-byte length followed by each byte |
| RootPayload.ByteArrayLayout | src/main/java/mryurihi/tbnbt/NBTTagByteArray.java:42-53 | that array, as a sequence, is the length encoding followed by the bytes |
| RootPayload.IntArrayOut | src/main/java/mryurihi/tbnbt/NBTTagIntArray.java:46-59 | the array holds the 4-byte length followed by each int's 4 bytes |
| RootPayload.ShortPayloadBytes | src/main/java/mryurihi/tbnbt/NBTTagShort.java:46-52 | NBTTagShort.getPayloadBytes agrees with RootCodec.Encoded |
| RootPayload.PayloadBytes | src/main/java/mryurihi/tbnbt/NBTTagString.java:44-60 | every tag's getPayloadBytes agrees with RootCodec.Encoded |
| RootPayload.ListPayloadBytes | src/main/java/mryurihi/tbnbt/NBTTagList.java:86-105 | NBTTagList.getPayloadBytes agrees with RootCodec.Encoded |
| RootPayload.ElemsOut | src/main/java/mryurihi/tbnbt/NBTTagList.java:96 | the element loop writes each element's payload in order, failing at the first element that fails |
| RootPayload.ListFromElems | src/main/java/mryurihi/tbnbt/NBTTagList.java:86-105 | a list is its type id, its 4-byte count and its elements, then the name; an element failure fails the list |
| RootPayload.CompoundPayloadBytes | src/main/java/mryurihi/tbnbt/NBTTagCompound.java:74-86 | NBTTagCompound.getPayloadBytes agrees with RootCodec.Encoded |
| RootPayload.MembersOut | src/main/java/mryurihi/tbnbt/NBTTagCompound.java:78-83 | the entry loop writes each member's type byte and named payload in HashMap order |
| RootPayload.CompoundFromMembers | src/main/java/mryurihi/tbnbt/NBTTagCompound.java:74-86 | a compound is the name, the members and the End byte; a member failure fails the compound |
| RootTags.Entries | src/main/java/mryurihi/tbnbt/NBTTagCompound.java:36-43 | the set of tag objects a map holds contains every non-null value |
| RootTags.Snapshot | src/main/java/mryurihi/tbnbt/NBTTagCompound.java:53-61 | the copied map has the same keys |
| RootTags.Adopted | src/main/java/mryurihi/tbnbt/NBTTagList.java:68-73 | an unset list type (0) adopts the first child's kind; a set one is kept |
| RootTags.RenameAll | src/main/java/mryurihi/tbnbt/NBTTagCompound.java:53-61 | renaming succeeds iff no value is null (else NullPointerException); every tag is then named by its key and the map is copied |
| RootTags.NBTTag.constructor | src/main/java/mryurihi/tbnbt/NBTTagShort.java:34-36 | the storing constructors keep the value and leave the name null |
| RootTags.NBTTag.NullArray | src/main/java/mryurihi/tbnbt/NBTTagByteArray.java:30-32 | NBTTagByteArray(null) and NBTTagIntArray(null) store a null value of their kind with a null name |
| RootTags.NBTTag.NewString | src/main/java/mryurihi/tbnbt/NBTTagString.java:30-33 | NBTTagString(String) succeeds iff the value is non-null and has at most Short.MAX_VALUE characters; null gives NullPointerException, too long IllegalArgumentException |
| RootTags.NBTTag.NewTypedList | src/main/java/mryurihi/tbnbt/NBTTagList.java:35-41 | NBTTagList(List, int) fails with NullPointerException on every non-empty list after clearing the first tag's name; otherwise an empty list of that type whose value field is null |
| RootTags.NBTTag.NewList | src/main/java/mryurihi/tbnbt/NBTTagList.java:43-46 | NBTTagList(List) keeps the given elements with type 0; null leaves the value null |
| RootTags.NBTTag.NewCompound | src/main/java/mryurihi/tbnbt/NBTTagCompound.java:36-43 | NBTTagCompound(Map) renames every entry to its key and copies the map; null gives an empty compound; a null entry throws NullPointerException |
| RootTags.NBTTag.SetName | src/main/java/mryurihi/tbnbt/NBTTag.java:31-34 | setName stores the name and returns the receiver |
| RootTags.NBTTag.GetPayloadBytes | src/main/java/mryurihi/tbnbt/NBTTagList.java:86-105 | a list, byte array or int array whose value is null throws NullPointerException, before the name is looked at; any other tag yields RootCodec.Encoded of its value and name |
| RootTags.NBTTag.SetStringValue | src/main/java/mryurihi/tbnbt/NBTTagString.java:39-42 | setValue refuses null with NullPointerException and more than Short.MAX_VALUE characters with IllegalArgumentException, keeping the old value either way, else stores it |
| RootTags.NBTTag.SetValue | src/main/java/mryurihi/tbnbt/NBTTagShort.java:42-44 | setValue of a short, byte array or int array replaces the value, which is then non-null, and keeps the name |
| RootTags.NBTTag.SetValueNull | src/main/java/mryurihi/tbnbt/NBTTagByteArray.java:38-40 | setValue(null) of a byte or int array makes the value null and keeps the kind and the name |
| RootTags.NBTTag.SetListValue | src/main/java/mryurihi/tbnbt/NBTTagList.java:60-62 | NBTTagList.setValue replaces the elements, keeps typeId and the name, and a null list leaves the value null |
| RootTags.NBTTag.SetTypeId | src/main/java/mryurihi/tbnbt/NBTTagList.java:64-66 | setTypeId replaces the element kind without checking the elements, which stay |
| RootTags.NBTTag.Add | src/main/java/mryurihi/tbnbt/NBTTagList.java:68-73 | add clears the child's name, adopts its kind when unset, appends it iff its kind matches (else IllegalArgumentException; a null child or null value gives NullPointerException), and keeps the list homogeneous; the list may be added to itself, which appends its value before the call |
| RootTags.NBTTag.AddAt | src/main/java/mryurihi/tbnbt/NBTTagList.java:75-80 | add(index) does the same, inserting at the index when 0 <= index <= size; a kind mismatch gives IllegalArgumentException, a null value NullPointerException, a bad index IndexOutOfBoundsException; the list may be inserted into itself |
| RootTags.NBTTag.RemoveAt | src/main/java/mryurihi/tbnbt/NBTTagList.java:82-84 | remove(index) deletes exactly that element, shifting the later ones down; a null value gives NullPointerException and an index outside the list IndexOutOfBoundsException, changing nothing |
| RootTags.NBTTag.Get | src/main/java/mryurihi/tbnbt/NBTTagCompound.java:49-51 | get of a missing key is null |
| RootTags.NBTTag.Put | src/main/java/mryurihi/tbnbt/NBTTagCompound.java:63-67 | put names the child by its key and maps the key to it, leaving every other key as it was; a null child gives NullPointerException; the compound may be put into itself, which stores its value before the call |
| RootTags.NBTTag.RemoveKey | src/main/java/mryurihi/tbnbt/NBTTagCompound.java:69-72 | remove deletes exactly that key, leaving every other key as it was |
| RootTags.NBTTag.SetCompoundValue | src/main/java/mryurihi/tbnbt/NBTTagCompound.java:53-61 | setValue succeeds iff the map and all its values are non-null; the compound then holds the renamed copy, also when the map contains the compound itself |
| RootTags.NBTOutputStream.constructor | src/main/java/mryurihi/tbnbt/NBTOutputStream.java:35-40 | keeps the stream and the compression flag |
| RootTags.NBTOutputStream.Default | src/main/java/mryurihi/tbnbt/NBTOutputStream.java:42-44 | the one-argument constructor compresses |
| RootTags.NBTOutputStream.WriteTag | src/main/java/mryurihi/tbnbt/NBTOutputStream.java:46-53 | writeTag names the tag and writes RootTags.Document iff its value is non-null and its payload can be built, else writes nothing; a null value gives NullPointerException |
| RootTags.NBTOutputStream.Close | src/main/java/mryurihi/tbnbt/NBTOutputStream.java:55-58 | close closes the stream |
| RootTags.Document | src/main/java/mryurihi/tbnbt/NBTOutputStream.java:46-53 | a document is the type byte followed by the named payload |
| RootTags.DocumentReadsBack | src/main/java/mryurihi/tbnbt/NBTOutputStream.java:46-53 | a written document's type byte reads back as the kind, and parseTagById then reads back the tag under its name |
| TagSpec.TypeById | src/main/java/mryurihi/tbnbt/tag/NBTTag.java:140-155 | TagType.getTypeById succeeds exactly for ids 0..12 |
| TagSpec.LongsBytes | src/main/java/mryurihi/tbnbt/tag/NBTTag.java:140-155 | longs take 8 bytes each |
| TagSpec.LeafBytes | src/main/java/mryurihi/tbnbt/tag/NBTTagShort.java:48-54 | a leaf payload is 1, 2, 4 or 8 bytes for the integers; the 4-byte length and then the bytes for a byte array; the 2-byte count and then the characters for a string; 4 + 4n bytes for an int array and 4 + 8n for a long array |
| TagSpec.WriteOut | src/main/java/mryurihi/tbnbt/tag/NBTTagList.java:106-111 | writing a tag never changes its kind |
| TagSpec.WriteElems | src/main/java/mryurihi/tbnbt/tag/NBTTagList.java:106-111 | writing elements from index i on leaves that many elements behind |
| TagSpec.Longs | src/main/java/mryurihi/tbnbt/tag/NBTTag.java:140-155 | reading n longs yields n values and consumes 8n bytes |
| TagSpec.LongArrayPayload | src/main/java/mryurihi/tbnbt/tag/NBTTag.java:140-155 | a long array read consumes the length and 8 bytes per element |
| TagSpec.NewTagByType | src/main/java/mryurihi/tbnbt/tag/NBTTag.java:140-155 | newTagByType yields a tag of the kind for kinds 1..12 and null for any other, consuming nothing; a compound always fails |
| TagSpec.AsCompound | src/main/java/mryurihi/tbnbt/tag/NBTTagCompound.java:87-95 | the compound read succeeds exactly when the member read does |
| TagSpec.ListRead | src/main/java/mryurihi/tbnbt/tag/NBTTagList.java:113-122 | readPayloadBytes yields a list and consumes at least one byte |
| TagSpec.Elements | src/main/java/mryurihi/tbnbt/tag/NBTTagList.java:113-122 | reading n elements yields n slots of the element kind |
| TagSpec.Members | src/main/java/mryurihi/tbnbt/tag/NBTTagCompound.java:87-95 | the member loop fails on a compound whose map is null, and consumes at least one byte |
| TagSpec.RoundTrip | src/main/java/mryurihi/tbnbt/tag/NBTTagList.java:106-122 | every readable non-compound tag writes without failure, is unchanged, and newTagByType reads back the same tag |
| TagSpec.LongsRoundTrip | src/main/java/mryurihi/tbnbt/tag/NBTTag.java:140-155 | encoded longs read back as the same longs |
| TagSpec.LongArrayRoundTrip | src/main/java/mryurihi/tbnbt/tag/NBTTag.java:140-155 | a long array's length and longs read back as the array |
| TagSpec.LeafRoundTrip | src/main/java/mryurihi/tbnbt/tag/NBTTagShort.java:48-54 | every readable leaf's bytes read back through newTagByType |
| TagSpec.ListRoundTrip | src/main/java/mryurihi/tbnbt/tag/NBTTagList.java:106-122 | a readable list written by writePayloadBytes reads back through readPayloadBytes |
| TagSpec.ElemsRoundTrip | src/main/java/mryurihi/tbnbt/tag/NBTTagList.java:106-122 | the elements from index i on write and read back as the same suffix |
| TagObjects.NewTagByType | src/main/java/mryurihi/tbnbt/tag/NBTTag.java:140-155 | the method reads exactly what TagSpec.NewTagByType describes |
| TagObjects.CompoundSlot | src/main/java/mryurihi/tbnbt/tag/NBTTag.java:140-155 | the compound branch succeeds exactly when its read does |
| TagObjects.ReadLeaf | src/main/java/mryurihi/tbnbt/tag/NBTTag.java:140-155 | leaf reads agree with the root parser's payload reads |
| TagObjects.ReadLongArrayPayload | src/main/java/mryurihi/tbnbt/tag/NBTTag.java:140-155 | the long array read agrees with TagSpec.LongArrayPayload |
| TagObjects.ReadLongs | src/main/java/mryurihi/tbnbt/tag/NBTTag.java:140-155 | the long loop agrees with TagSpec.Longs |
| TagObjects.WriteElement | src/main/java/mryurihi/tbnbt/tag/NBTTagList.java:108-110 | writing one element appends TagSpec.WriteOut's bytes and reports its failure and new state |
| TagObjects.WriteElemsOut | src/main/java/mryurihi/tbnbt/tag/NBTTagList.java:106-111 | the element loop appends TagSpec.WriteElems's bytes, failure and new states |
| TagObjects.WriteElemsNull | src/main/java/mryurihi/tbnbt/tag/NBTTagList.java:108-110 | a null element stops the loop with NullPointerException, writing nothing |
| TagObjects.WriteElemsFail | src/main/java/mryurihi/tbnbt/tag/NBTTagList.java:108-110 | an element that fails stops the loop with its own failure |
| TagObjects.WriteElemsEnd | src/main/java/mryurihi/tbnbt/tag/NBTTagList.java:108-110 | past the last element nothing more is written |
| TagObjects.CopyEntries | src/main/java/mryurihi/tbnbt/tag/NBTTagCompound.java:57-64 | the copy loop yields a map equal to the given one |
| TagObjects.ReadElements | src/main/java/mryurihi/tbnbt/tag/NBTTagList.java:113-122 | the element loop agrees with TagSpec.Elements |
| TagObjects.TagList.Copy | src/main/java/mryurihi/tbnbt/tag/NBTTagList.java:40-46 | NBTTagList(List, TagType) keeps the elements, as values, in order (none for null) and the type |
| TagObjects.TagList.OfType | src/main/java/mryurihi/tbnbt/tag/NBTTagList.java:48-51 | NBTTagList(TagType) is empty with that type |
| TagObjects.TagList.Unset | src/main/java/mryurihi/tbnbt/tag/NBTTagList.java:59 | the package constructor is empty with type End |
| TagObjects.TagList.FromList | src/main/java/mryurihi/tbnbt/tag/NBTTagList.java:53-57 | NBTTagList(List) holds the list's elements, as a snapshot, and adopts the first element's kind; null or empty gives IllegalArgumentException, a null first element NullPointerException |
| TagObjects.TagList.Get | src/main/java/mryurihi/tbnbt/tag/NBTTagList.java:65-67 | get succeeds iff the index is inside the list and returns that element, else IndexOutOfBoundsException |
| TagObjects.TagList.Add | src/main/java/mryurihi/tbnbt/tag/NBTTagList.java:82-86 | add appends iff the tag is non-null and of the list's type, else NullPointerException or IllegalArgumentException and no change |
| TagObjects.TagList.AddAt | src/main/java/mryurihi/tbnbt/tag/NBTTagList.java:88-92 | add(index) inserts at the index under the same checks and 0 <= index <= size; an index outside that range gives IndexOutOfBoundsException and changes nothing |
| TagObjects.TagList.RemoveAt | src/main/java/mryurihi/tbnbt/tag/NBTTagList.java:94-97 | remove deletes exactly the element at the index, shifting the rest, or fails with IndexOutOfBoundsException |
| TagObjects.TagList.Set | src/main/java/mryurihi/tbnbt/tag/NBTTagList.java:99-104 | set adopts the tag's kind when the type is End, then replaces the element iff the kind matches and the index is inside; a matching kind at an index outside the list gives IndexOutOfBoundsException |
| TagObjects.TagList.SetValue | src/main/java/mryurihi/tbnbt/tag/NBTTagList.java:73-75 | setValue replaces the elements wholesale without checking them against typeId, which stays |
| TagObjects.TagList.SetTypeId | src/main/java/mryurihi/tbnbt/tag/NBTTagList.java:77-80 | setTypeId replaces the kind, keeps the elements unchecked and returns the receiver |
| TagObjects.TagList.WritePayloadBytes | src/main/java/mryurihi/tbnbt/tag/NBTTagList.java:106-111 | writePayloadBytes appends TagSpec.WriteOut's bytes for the list and leaves the list in its state afterwards |
| TagObjects.TagList.ReadPayloadBytes | src/main/java/mryurihi/tbnbt/tag/NBTTagList.java:113-122 | readPayloadBytes agrees with TagSpec.ListRead and stores the list read |
| TagObjects.TagCompound.constructor | src/main/java/mryurihi/tbnbt/tag/NBTTagCompound.java:39-45 | NBTTagCompound(Map) holds the map's entries, as values, or an empty map for null |
| TagObjects.TagCompound.Unset | src/main/java/mryurihi/tbnbt/tag/NBTTagCompound.java:47 | the package constructor leaves the map null |
| TagObjects.TagCompound.Get | src/main/java/mryurihi/tbnbt/tag/NBTTagCompound.java:53-55 | get fails with NullPointerException iff the map is null; a missing key gives null |
| TagObjects.TagCompound.SetValue | src/main/java/mryurihi/tbnbt/tag/NBTTagCompound.java:57-64 | setValue copies a non-null map, holding its members as values; null gives NullPointerException and no change |
| TagObjects.TagCompound.Put | src/main/java/mryurihi/tbnbt/tag/NBTTagCompound.java:66-69 | put maps the key to the tag and leaves every other key, or fails on a null map |
| TagObjects.TagCompound.Remove | src/main/java/mryurihi/tbnbt/tag/NBTTagCompound.java:71-74 | remove deletes exactly the key, or fails on a null map |
| TagObjects.TagCompound.WritePayloadBytes | src/main/java/mryurihi/tbnbt/tag/NBTTagCompound.java:76-85 | writePayloadBytes empties the map and writes only the End byte, the same for every compound |
| TagObjects.TagCompound.ReadPayloadBytes | src/main/java/mryurihi/tbnbt/tag/NBTTagCompound.java:87-95 | readPayloadBytes agrees with TagSpec.Members and stores the map read |
| TagLeaves.NameBytes | src/main/java/mryurihi/tbnbt/tag/NBTTagString.java:47-54 | a name's payload fails iff it has more than Short.MAX_VALUE characters, with IllegalArgumentException |
| TagLeaves.StringBytes | src/main/java/mryurihi/tbnbt/tag/NBTTagString.java:51-52 | a string payload is a 2-byte prefix followed by the string's bytes, and the prefix reads back as the Java character count whenever that count fits a short |
| TagLeaves.WithName | src/main/java/mryurihi/tbnbt/tag/NBTTagString.java:50 | adding a name fails iff the name has more than Short.MAX_VALUE Java characters, with IllegalArgumentException; otherwise a name's string payload comes first and the body is always the tail |
| TagLeaves.NameReadsBack | src/main/java/mryurihi/tbnbt/tag/NBTTagString.java:47-54 | a good name written before a body reads back as the name and leaves the body |
| TagLeaves.NamePayload | src/main/java/mryurihi/tbnbt/tag/NBTTagString.java:50 | the name's payload comes from a new NBTTagString of the name |
| TagLeaves.NameFirst | src/main/java/mryurihi/tbnbt/tag/NBTTagShort.java:48-54 | the name's bytes, when named, are added first |
| TagLeaves.AddBytes | src/main/java/mryurihi/tbnbt/tag/NBTTagByteArray.java:47-54 | the byte loop appends exactly the value's bytes |
| TagLeaves.AddInts | src/main/java/mryurihi/tbnbt/tag/NBTTagIntArray.java:48-55 | the int loop appends exactly each int's 4 bytes |
| TagLeaves.TagString.Init | src/main/java/mryurihi/tbnbt/tag/NBTTagString.java:33-36 | the storing constructor keeps an accepted value and no name |
| TagLeaves.TagString.New | src/main/java/mryurihi/tbnbt/tag/NBTTagString.java:33-36 | NBTTagString(String) succeeds iff the value is non-null and has at most Short.MAX_VALUE characters; null gives NullPointerException, too long IllegalArgumentException |
| TagLeaves.TagString.SetValue | src/main/java/mryurihi/tbnbt/tag/NBTTagString.java:42-45 | setValue stores the value under the same checks (null gives NullPointerException) and keeps the old one when refused |
| TagLeaves.TagString.GetTagType | src/main/java/mryurihi/tbnbt/tag/NBTTagString.java:56-59 | the type is STRING |
| TagLeaves.TagString.GetPayloadBytes | src/main/java/mryurihi/tbnbt/tag/NBTTagString.java:47-54 | the payload is the name's bytes, the character count and the bytes |
| TagLeaves.TagShort.constructor | src/main/java/mryurihi/tbnbt/tag/NBTTagShort.java:36-38 | keeps the value and no name |
| TagLeaves.TagShort.SetValue | src/main/java/mryurihi/tbnbt/tag/NBTTagShort.java:44-46 | stores the value |
| TagLeaves.TagShort.GetTagType | src/main/java/mryurihi/tbnbt/tag/NBTTagShort.java:56-59 | the type is SHORT |
| TagLeaves.TagShort.GetPayloadBytes | src/main/java/mryurihi/tbnbt/tag/NBTTagShort.java:48-54 | the payload is the name's bytes and the value's 2 bytes |
| TagLeaves.TagByteArray.constructor | src/main/java/mryurihi/tbnbt/tag/NBTTagByteArray.java:35-37 | keeps the value and no name |
| TagLeaves.TagByteArray.SetValue | src/main/java/mryurihi/tbnbt/tag/NBTTagByteArray.java:43-45 | stores the value |
| TagLeaves.TagByteArray.GetTagType | src/main/java/mryurihi/tbnbt/tag/NBTTagByteArray.java:56-59 | the type is BYTE_ARRAY |
| TagLeaves.TagByteArray.GetPayloadBytes | src/main/java/mryurihi/tbnbt/tag/NBTTagByteArray.java:47-54 | the payload is the name's bytes, the 4-byte length and the bytes |
| TagLeaves.TagIntArray.constructor | src/main/java/mryurihi/tbnbt/tag/NBTTagIntArray.java:36-38 | keeps the value and no name |
| TagLeaves.TagIntArray.SetValue | src/main/java/mryurihi/tbnbt/tag/NBTTagIntArray.java:44-46 | stores the value |
| TagLeaves.TagIntArray.GetTagType | src/main/java/mryurihi/tbnbt/tag/NBTTagIntArray.java:57-60 | the type is INT_ARRAY |
| TagLeaves.TagIntArray.GetPayloadBytes | src/main/java/mryurihi/tbnbt/tag/NBTTagIntArray.java:48-55 | the payload is the name's bytes, the 4-byte length and 4 bytes per int |
| TagLeaves.StringReadsBack | src/main/java/mryurihi/tbnbt/tag/NBTTagString.java:47-54 | a string whose byte count equals its character count reads back exactly |
| TagLeaves.StringCharCount | src/main/java/mryurihi/tbnbt/tag/NBTTagString.java:51 | the prefix is the character count: "é" (C3 A9) is written as 00 01 C3 A9 and reads back as C3, leaving A9 |
| TagLeaves.StringSurrogatePair | src/main/java/mryurihi/tbnbt/tag/NBTTagString.java:51 | a character outside the Basic Multilingual Plane counts as two: "😀" (F0 9F 98 80) is written as 00 02 F0 9F 98 80 and reads back as F0 9F, leaving 98 80 |
| Bytes.FourByteCharacter | src/main/java/mryurihi/tbnbt/tag/NBTTagString.java:51 | String.length() of a four-byte UTF-8 character is 2, a surrogate pair |
| Bytes.TwoByteCharacter | src/main/java/mryurihi/tbnbt/tag/NBTTagString.java:51 | String.length() of a two-byte UTF-8 character is 1 |
| TagLeaves.ShortReadsBack | src/main/java/mryurihi/tbnbt/tag/NBTTagShort.java:48-54 | a short's payload reads back as the short |
| TagLeaves.ByteArrayReadsBack | src/main/java/mryurihi/tbnbt/tag/NBTTagByteArray.java:47-54 | a byte array's payload reads back as the array |
| TagLeaves.IntArrayReadsBack | src/main/java/mryurihi/tbnbt/tag/NBTTagIntArray.java:48-55 | an int array's payload reads back as the array |
| TagLeaves.ByteArrayVector | src/test/java/com/github/mryurihi/tbnbt/tag/NBTTagByteArrayTest.java:41-51 | [1,3,8,3,17,12] is written as 00 00 00 06 01 03 08 03 11 0C |
| ComByte.TagByte.constructor | src/main/java/com/github/mryurihi/tbnbt/tag/NBTTagByte.java:36-38 | keeps the value |
| ComByte.TagByte.Unset | src/main/java/com/github/mryurihi/tbnbt/tag/NBTTagByte.java:40-41 | the package constructor holds 0 |
| ComByte.TagByte.SetValue | src/main/java/com/github/mryurihi/tbnbt/tag/NBTTagByte.java:47-49 | stores the value |
| ComByte.TagByte.GetTagType | src/main/java/com/github/mryurihi/tbnbt/tag/NBTTagByte.java:51-54 | the type is BYTE |
| ComByte.TagByte.WritePayloadBytes | src/main/java/com/github/mryurihi/tbnbt/tag/NBTTagByte.java:61-64 | writes the value as one byte |
| ComByte.TagByte.ReadPayloadBytes | src/main/java/com/github/mryurihi/tbnbt/tag/NBTTagByte.java:66-70 | reads one signed byte into the value and returns the receiver; an empty stream gives EOFException and no change |
| ComByte.TagByte.EqualsTag | src/main/java/com/github/mryurihi/tbnbt/tag/NBTTagByte.java:72-75 | equalsTag holds iff the other tag is a byte tag with the same value |
| ComByte.WriteThenRead | src/main/java/com/github/mryurihi/tbnbt/tag/NBTTagByte.java:61-70 | a byte written and read back is the same byte, leaving what followed |
| ComByte.ReadVector | src/test/java/com/github/mryurihi/tbnbt/tag/NBTTagTest.java:63-68 | the byte 12 reads as 0x12 |
| TagFacts.LeafVectors | src/test/java/com/github/mryurihi/tbnbt/tag/NBTTagTest.java:63-131 | the byte, short, int, long and string vectors read through newTagByType as the tests expect |
| TagFacts.StringElement | src/main/java/mryurihi/tbnbt/tag/NBTTag.java:140-155 | a short string reads through newTagByType |
| TagFacts.ListVector | src/test/java/com/github/mryurihi/tbnbt/tag/NBTTagTest.java:133-145 | the list vector reads as a String list of "Hello" and "Goodbye" |
| TagFacts.MemberStep | src/main/java/mryurihi/tbnbt/tag/NBTTagCompound.java:87-95 | one pass of the do-while puts the member in and stops iff its type byte was End; a null map fails |
| TagFacts.TwoMembers | src/test/java/com/github/mryurihi/tbnbt/tag/NBTTagTest.java:147-164 | the compound vector's two members are read in order into the map |
| TagFacts.CompoundVectorFails | src/test/java/com/github/mryurihi/tbnbt/tag/NBTTagTest.java:147-164 | newTagByType on the compound vector fails, because the new compound's map is null |
| TagFacts.CompoundVectorReadsPastEnd | src/main/java/mryurihi/tbnbt/tag/NBTTagCompound.java:90-93 | with a map, the loop reads the final End as a member named "" and continues past the compound |
| TagFacts.CompoundVectorEndsEarly | src/main/java/mryurihi/tbnbt/tag/NBTTagCompound.java:90-93 | on the vector alone that loop runs out of input |
| TagFacts.CompoundWriteForgets | src/main/java/mryurihi/tbnbt/tag/NBTTagCompound.java:76-85 | any two compounds write the same single End byte |
| AdapterTypes.Plain | src/main/java/mryurihi/tbnbt/adapter/impl/MapAdapterFactory.java:63-68 | TypeToken.of(c) has raw type c and no arguments |
| AdapterTypes.WireName | src/main/java/mryurihi/tbnbt/adapter/impl/ObjectAdapter.java:76-82 | a field without @SerializedName goes by its own name |
| AdapterTypes.DefaultOf | src/main/java/mryurihi/tbnbt/adapter/impl/ObjectAdapter.java:45 | a new instance's reference fields hold null |
| AdapterTypes.Defaults | src/main/java/mryurihi/tbnbt/adapter/impl/ObjectAdapter.java:45 | a new instance has exactly one entry per declared field |
| AdapterTypes.Then | src/main/java/mryurihi/tbnbt/adapter/impl/ObjectAdapter.java:73-87 | a later write follows an earlier one unless the earlier one threw |
| AdapterTypes.GetId | src/main/java/mryurihi/tbnbt/adapter/impl/ObjectAdapter.java:89-92 | every built-in adapter answers a tag id from BYTE to LONG_ARRAY and a custom adapter its own id; the Object and Map adapters answer COMPOUND, the array and collection adapters LIST |
| Resolution.PutAll | src/main/java/mryurihi/tbnbt/adapter/AdapterRegistry.java:109 | the registration loop registers exactly the listed classes |
| Resolution.PutAllAt | src/main/java/mryurihi/tbnbt/adapter/AdapterRegistry.java:109 | a class registered last maps to its own adapter |
| Resolution.DefaultFactories | src/main/java/mryurihi/tbnbt/adapter/AdapterRegistry.java:110-112 | the factories cover Collection, Object[] and Map |
| Resolution.DefaultRegistry | src/main/java/mryurihi/tbnbt/adapter/AdapterRegistry.java:77-109 | a new registry has an entry exactly for the listed classes, each a built-in adapter that can be instantiated |
| Resolution.DefaultRegistryPositional | src/main/java/mryurihi/tbnbt/adapter/AdapterRegistry.java:77-109 | the new registry maps each listed class to the adapter at the same position |
| Resolution.RegisteredOnce | src/main/java/mryurihi/tbnbt/adapter/AdapterRegistry.java:77-92 | no class is listed twice |
| Resolution.RegisteredAt | src/main/java/mryurihi/tbnbt/adapter/AdapterRegistry.java:77-108 | the Byte, Integer, Long, String, Object, Integer[] and Long[] registrations sit at their positions in the constructor's lists |
| Resolution.DefaultEntry | src/main/java/mryurihi/tbnbt/adapter/AdapterRegistry.java:77-109 | every listed registration is in a new registry with its own adapter |
| Resolution.DefaultLookups | src/main/java/mryurihi/tbnbt/adapter/AdapterRegistry.java:77-108 | Byte, Integer, Long, String, Object, Integer[] and Long[] map to their adapters |
| Resolution.FixedPrimitive | src/main/java/mryurihi/tbnbt/adapter/AdapterRegistry.java:138-146 | only primitive classes have a fixed adapter |
| Resolution.Resolve | src/main/java/mryurihi/tbnbt/adapter/AdapterRegistry.java:136-162 | the cascade returns an adapter only of a described class |
| Resolution.Walk | src/main/java/mryurihi/tbnbt/adapter/AdapterRegistry.java:152-157 | the interface loop returns an adapter only of a described class |
| Resolution.ViaSuperclass | src/main/java/mryurihi/tbnbt/adapter/AdapterRegistry.java:158-161 | the superclass step returns an adapter only of a described class |
| Resolution.Create | src/main/java/mryurihi/tbnbt/adapter/AdapterRegistry.java:151 | a factory always creates an adapter of a described class |
| Resolution.AdapterFor | src/main/java/mryurihi/tbnbt/adapter/AdapterRegistry.java:132-134 | getAdapterForObject(token) returns an adapter only of a described class |
| Resolution.ResolveSound | src/main/java/mryurihi/tbnbt/adapter/AdapterRegistry.java:136-162 | every adapter the cascade returns was registered for, fixed for, or created for a class at or above the type |
| Resolution.CreateSound | src/main/java/mryurihi/tbnbt/adapter/AdapterRegistry.java:151 | the same for the factory step |
| Resolution.WalkSound | src/main/java/mryurihi/tbnbt/adapter/AdapterRegistry.java:152-157 | the same for the interface loop |
| Resolution.SuperclassSound | src/main/java/mryurihi/tbnbt/adapter/AdapterRegistry.java:158-161 | the same for the superclass step |
| Resolution.NullOnlyWithoutAdapterUp | src/main/java/mryurihi/tbnbt/adapter/AdapterRegistry.java:136-162 | the cascade answers null only when no class above the type has an adapter |
| Resolution.NoAdapterAbove | src/main/java/mryurihi/tbnbt/adapter/AdapterRegistry.java:147-161 | then no class above it is registered with an instantiable adapter |
| Resolution.ObjectCatchesAll | src/main/java/mryurihi/tbnbt/adapter/AdapterRegistry.java:147-161 | while Object is registered, every class under Object gets an adapter |
| Resolution.WalkFindsFirst | src/main/java/mryurihi/tbnbt/adapter/AdapterRegistry.java:152-157 | the interface loop returns the adapter of the first interface that has one |
| Resolution.InterfacesBeforeSuperclass | src/main/java/mryurihi/tbnbt/adapter/AdapterRegistry.java:152-161 | an unregistered class without a factory takes its first interface's adapter before its superclass's |
| Resolution.FailedInstanceGoesUp | src/main/java/mryurihi/tbnbt/adapter/AdapterRegistry.java:147-161 | a registered adapter that cannot be instantiated sends the lookup to the superclass (null at the top) |
| Resolution.RegistryBeforeFactories | src/main/java/mryurihi/tbnbt/adapter/AdapterRegistry.java:147-150 | a registered, instantiable adapter wins over factories, interfaces and superclass |
| Resolution.PrimitivesFirst | src/main/java/mryurihi/tbnbt/adapter/AdapterRegistry.java:138-146 | int, byte and long resolve to the Integer, Byte and Long adapters whatever is registered |
| Registry.AdapterRegistry.Tables | src/main/java/mryurihi/tbnbt/adapter/AdapterRegistry.java:115-116 | the tables the cascade consults are the registry's fields |
| Registry.AdapterRegistry.constructor | src/main/java/mryurihi/tbnbt/adapter/AdapterRegistry.java:74-113 | the constructor's loop fills exactly the default registrations and the three factories |
| Registry.PutEach | src/main/java/mryurihi/tbnbt/adapter/AdapterRegistry.java:109 | the registration loop builds exactly Resolution.PutAll of the listed classes and adapters, a later put replacing an earlier one |
| Registry.AdapterRegistry.RegisterAdapter | src/main/java/mryurihi/tbnbt/adapter/AdapterRegistry.java:123-125 | registerAdapter replaces the entry for that class only |
| Registry.RegisterTakesEffect | src/main/java/mryurihi/tbnbt/adapter/AdapterRegistry.java:123-150 | after registerAdapter a non-primitive class resolves to an instance of the new adapter |
| Registry.Named | src/main/java/mryurihi/tbnbt/adapter/AdapterRegistry.java:168-526 | each get*Adapter is named after a non-container tag type |
| Registry.GetAdapter | src/main/java/mryurihi/tbnbt/adapter/AdapterRegistry.java:168-175 | a getter, as intended, returns an instance iff its class is registered with an adapter that can be instantiated, and then an instance of that adapter |
| Registry.GetAdapterAsWritten | src/main/java/mryurihi/tbnbt/adapter/AdapterRegistry.java:480-487 | the same for the class each getter actually looks up, Long[] for getIntArrayAdapter |
| Registry.Lookup | src/main/java/mryurihi/tbnbt/adapter/AdapterRegistry.java:168-175 | a getter returns an instance iff the class is registered with an instantiable adapter, else null |
| Registry.GettersAgreeElsewhere | src/main/java/mryurihi/tbnbt/adapter/AdapterRegistry.java:480-487 | only getIntArrayAdapter departs from the intended lookup, and it equals getLongArrayAdapter in every registry |
| Registry.Position | src/main/java/mryurihi/tbnbt/adapter/AdapterRegistry.java:77-108 | each getter's intended class is registered with an adapter writing the getter's tag type |
| Registry.DefaultGettersNamed | src/main/java/mryurihi/tbnbt/adapter/AdapterRegistry.java:168-526 | in a new registry every getter, as intended, returns an adapter writing its own tag type |
| Registry.IntArrayGetterMismatch | src/main/java/mryurihi/tbnbt/adapter/AdapterRegistry.java:480-487 | as written, getIntArrayAdapter returns the Long[] adapter, which writes LONG_ARRAY and not INT_ARRAY |
| AdapterSpec.ReadIn | src/main/java/mryurihi/tbnbt/adapter/impl/primitive/ByteAdapter.java:38-46 | reading n bytes succeeds iff n are left, else EOFException |
| AdapterSpec.AsByte | src/main/java/mryurihi/tbnbt/adapter/impl/primitive/ByteAdapter.java:48-55 | the cast to Byte keeps a value in range |
| AdapterSpec.AsInt | src/main/java/mryurihi/tbnbt/adapter/AdapterRegistry.java:273-279 | the cast to Integer keeps a value in range |
| AdapterSpec.AsLong | src/main/java/mryurihi/tbnbt/adapter/impl/primitive/LongAdapter.java:48-55 | the cast to Long keeps a value in range |
| AdapterSpec.LeafIn | src/main/java/mryurihi/tbnbt/adapter/impl/primitive/LongAdapter.java:38-46 | a leaf read never grows the input and consumes something when it succeeds |
| AdapterSpec.FromVia | src/main/java/mryurihi/tbnbt/adapter/AdapterRegistry.java:182-188 | from* consumes something when it returns a value |
| AdapterSpec.FromString | src/main/java/mryurihi/tbnbt/adapter/AdapterRegistry.java:455-461 | fromString consumes something when it returns a value |
| AdapterSpec.FromInt | src/main/java/mryurihi/tbnbt/adapter/AdapterRegistry.java:260-266 | fromInt consumes something when it returns a value |
| AdapterSpec.ByName | src/main/java/mryurihi/tbnbt/adapter/impl/ObjectAdapter.java:52 | getDeclaredField finds the field of that name, or none exists |
| AdapterSpec.LastSerialized | src/main/java/mryurihi/tbnbt/adapter/impl/ObjectAdapter.java:53-58 | the fallback finds a field whose @SerializedName is the name, or none exists |
| AdapterSpec.FindField | src/main/java/mryurihi/tbnbt/adapter/impl/ObjectAdapter.java:52-58 | the lookup fails iff no field has that name or serialized name |
| AdapterSpec.DefaultsKeys | src/main/java/mryurihi/tbnbt/adapter/impl/ObjectAdapter.java:45 | a new instance has exactly the declared fields |
| AdapterSpec.Decode | src/main/java/mryurihi/tbnbt/adapter/impl/ObjectAdapter.java:63-64 | fromNBT of any adapter consumes something when it succeeds |
| AdapterSpec.ObjectIn | src/main/java/mryurihi/tbnbt/adapter/impl/ObjectAdapter.java:40-71 | ObjectAdapter.fromNBT yields an object with exactly the declared fields |
| AdapterSpec.Fields | src/main/java/mryurihi/tbnbt/adapter/impl/ObjectAdapter.java:47-66 | the do-while keeps the object's fields the declared ones |
| AdapterSpec.FieldIn | src/main/java/mryurihi/tbnbt/adapter/impl/ObjectAdapter.java:48-65 | one field read keeps the object's fields the declared ones; a failure of the field's adapter is rethrown as NBTParseException, except that an adapter outside the model leaves the outcome open (Unmodelled) |
| AdapterSpec.MapIn | src/main/java/mryurihi/tbnbt/adapter/impl/MapAdapterFactory.java:59-73 | MapAdapter.fromNBT as written returns null whenever it succeeds |
| AdapterSpec.MapBody | src/main/java/mryurihi/tbnbt/adapter/impl/MapAdapterFactory.java:63-71 | the entry loop's failures are rethrown as NBTParseException, or left open when they come from an adapter outside the model |
| AdapterSpec.MapInFixed | src/main/java/mryurihi/tbnbt/adapter/impl/MapAdapterFactory.java:59-73 | the corrected fromNBT returns the map read |
| AdapterSpec.Entries | src/main/java/mryurihi/tbnbt/adapter/impl/MapAdapterFactory.java:63-68 | the entry loop consumes something, and fails only with NBTParseException or with the open outcome of an adapter outside the model |
| AdapterSpec.ArrayIn | src/main/java/mryurihi/tbnbt/adapter/impl/ArrayAdapterFactory.java:57-69 | ArrayAdapter.fromNBT yields an array and consumes input when it succeeds |
| AdapterSpec.Elems | src/main/java/mryurihi/tbnbt/adapter/impl/ArrayAdapterFactory.java:62-64 | the element loop yields exactly the count read |
| AdapterSpec.ObjectOut | src/main/java/mryurihi/tbnbt/adapter/impl/ObjectAdapter.java:73-87 | ObjectAdapter.toNBT fails only with NBTParseException, or with the open outcome of an adapter outside the model |
| AdapterSpec.ArrayOut | src/main/java/mryurihi/tbnbt/adapter/impl/ArrayAdapterFactory.java:71-83 | ArrayAdapter.toNBT fails only with NBTParseException, or with the open outcome of an adapter outside the model |
| AdapterSpec.Encode | src/main/java/mryurihi/tbnbt/adapter/impl/ObjectAdapter.java:81 | toNBT of any adapter fails only with NBTParseException, NullPointerException or ClassCastException, and a collection adapter's write is outside the model |
| AdapterSpec.LeafOut | src/main/java/mryurihi/tbnbt/adapter/impl/primitive/ByteAdapter.java:48-55 | a leaf write that fails writes nothing, and it reports an unmodelled adapter exactly when the class is not a leaf adapter |
| AdapterSpec.LeafOutShape | src/main/java/mryurihi/tbnbt/adapter/impl/primitive/LongAdapter.java:48-55 | the Byte, Integer and Long adapters accept exactly a value of their own type and write 1, 4 and 8 bytes; the String adapter accepts exactly a string of at most Short.MAX_VALUE characters and writes a 2-byte length and then the string |
| AdapterSpec.WriteVia | src/main/java/mryurihi/tbnbt/adapter/AdapterRegistry.java:195-201 | a write* call writes something only through a registered adapter that can be instantiated and accepts the value; writeByte of a byte writes 1 byte and writeInt of an int writes 4 |
| AdapterSpec.FieldsOut | src/main/java/mryurihi/tbnbt/adapter/impl/ObjectAdapter.java:76-82 | the field loop fails only with the errors toNBT can throw |
| AdapterSpec.FieldsOutNeedsFields | src/main/java/mryurihi/tbnbt/adapter/impl/ObjectAdapter.java:76-82 | a field loop that succeeds over at least one field was given an object that holds every remaining declared field |
| AdapterSpec.MapOut | src/main/java/mryurihi/tbnbt/adapter/impl/MapAdapterFactory.java:75-85 | MapAdapter.toNBT of null throws NullPointerException and of a non-map ClassCastException, writing nothing; a success needs a map, and an item adapter when the map is not empty |
| AdapterSpec.EntriesOut | src/main/java/mryurihi/tbnbt/adapter/impl/MapAdapterFactory.java:79-83 | the entry loop fails only with the errors toNBT can throw |
| AdapterSpec.EntriesOutNeedsItems | src/main/java/mryurihi/tbnbt/adapter/impl/MapAdapterFactory.java:79-83 | an entry loop that succeeds over at least one entry has an item adapter, and that adapter writes every remaining value without failure |
| AdapterSpec.ElemsOut | src/main/java/mryurihi/tbnbt/adapter/impl/ArrayAdapterFactory.java:77-79 | the element loop fails only with the errors toNBT can throw |
| AdapterSpec.ElemsOutSucceeds | src/main/java/mryurihi/tbnbt/adapter/impl/ArrayAdapterFactory.java:77-79 | the element loop succeeds iff the content adapter writes every remaining element without failure |
| AdapterRoundTrip.ByteRoundTrip | src/main/java/mryurihi/tbnbt/adapter/impl/primitive/ByteAdapter.java:38-55 | a byte written by ByteAdapter reads back as the same byte |
| AdapterRoundTrip.IntRoundTrip | src/main/java/mryurihi/tbnbt/adapter/AdapterRegistry.java:260-279 | an int written by the Integer adapter reads back as the same int |
| AdapterRoundTrip.LongRoundTrip | src/main/java/mryurihi/tbnbt/adapter/impl/primitive/LongAdapter.java:38-55 | a long written by LongAdapter reads back as the same long |
| AdapterRoundTrip.StringRoundTrip | src/main/java/mryurihi/tbnbt/adapter/AdapterRegistry.java:455-474 | a string written by the String adapter reads back as the same string |
| AdapterRoundTrip.LeafRoundTrip | src/main/java/mryurihi/tbnbt/adapter/impl/primitive/LongAdapter.java:38-60 | a leaf write succeeds iff the value fits the adapter, and then reads back under the adapter's own id |
| AdapterRoundTrip.LeafChecksId | src/main/java/mryurihi/tbnbt/adapter/impl/primitive/ByteAdapter.java:40 | a leaf adapter given another tag type throws NBTParseException, consuming nothing |
| AdapterRoundTrip.LeafId | src/main/java/mryurihi/tbnbt/adapter/impl/primitive/ByteAdapter.java:57-60 | a leaf adapter's id is one positive byte that reads back and is a valid tag type |
| AdapterRoundTrip.DefaultRegistryLeaves | src/main/java/mryurihi/tbnbt/adapter/AdapterRegistry.java:77-109 | a new registry holds the leaf adapters the round trips rely on |
| AdapterRoundTrip.SmallByteVia | src/main/java/mryurihi/tbnbt/adapter/AdapterRegistry.java:195-201 | writeByte of a value below 0x80 writes that one byte |
| AdapterRoundTrip.NameRoundTrip | src/main/java/mryurihi/tbnbt/adapter/AdapterRegistry.java:455-474 | writeString writes the length and the bytes, and fromString reads them back |
| AdapterRoundTrip.IntVia | src/main/java/mryurihi/tbnbt/adapter/AdapterRegistry.java:260-279 | writeInt writes 4 bytes that fromInt reads back |
| AdapterRoundTrip.LeafClassResolves | src/main/java/mryurihi/tbnbt/adapter/AdapterRegistry.java:147-150 | a leaf field's class resolves to its registered adapter |
| AdapterRoundTrip.FieldsOutWire | src/main/java/mryurihi/tbnbt/adapter/impl/ObjectAdapter.java:76-82 | the field loop writes, for each field, its adapter id, its wire name and its value |
| AdapterRoundTrip.FieldsReadBack | src/main/java/mryurihi/tbnbt/adapter/impl/ObjectAdapter.java:47-66 | the do-while reads those fields back into the same object |
| AdapterRoundTrip.ObjectOutWire | src/main/java/mryurihi/tbnbt/adapter/impl/ObjectAdapter.java:73-87 | toNBT writes the fields and then 0 |
| AdapterRoundTrip.ObjectInStart | src/main/java/mryurihi/tbnbt/adapter/impl/ObjectAdapter.java:42-46 | fromNBT starts from a new instance and the first type byte |
| AdapterRoundTrip.ObjectRoundTrip | src/main/java/mryurihi/tbnbt/adapter/impl/ObjectAdapter.java:40-87 | an object of leaf fields written by toNBT reads back as the same object through fromNBT |
| AdapterCollections.MapOutWire | src/main/java/mryurihi/tbnbt/adapter/impl/MapAdapterFactory.java:75-85 | toNBT writes each entry's id, key and value in HashMap order, then 0 |
| AdapterCollections.EntriesOutWire | src/main/java/mryurihi/tbnbt/adapter/impl/MapAdapterFactory.java:79-83 | the entry loop writes exactly those bytes without failing |
| AdapterCollections.EntriesReadBack | src/main/java/mryurihi/tbnbt/adapter/impl/MapAdapterFactory.java:63-68 | the read loop collects those entries back into the whole map |
| AdapterCollections.MapBodyReadBack | src/main/java/mryurihi/tbnbt/adapter/impl/MapAdapterFactory.java:59-73 | the bytes toNBT wrote read back as the same entries |
| AdapterCollections.MapRoundTrip | src/main/java/mryurihi/tbnbt/adapter/impl/MapAdapterFactory.java:59-85 | a non-empty map of leaf values reads back through the corrected fromNBT; as written, the same bytes are consumed and null is returned |
| AdapterCollections.EmptyMapFails | src/main/java/mryurihi/tbnbt/adapter/impl/MapAdapterFactory.java:63-68 | an empty map writes only 0, and fromNBT then throws NBTParseException |
| AdapterCollections.EntriesRefuseEnd | src/main/java/mryurihi/tbnbt/adapter/impl/MapAdapterFactory.java:63-68 | an End type byte at the start of the read loop throws NBTParseException |
| AdapterCollections.ElemsOutWire | src/main/java/mryurihi/tbnbt/adapter/impl/ArrayAdapterFactory.java:77-79 | the element loop writes each element's payload when all fit |
| AdapterCollections.ElemsOutMisfit | src/main/java/mryurihi/tbnbt/adapter/impl/ArrayAdapterFactory.java:77-82 | an element that does not fit fails the loop |
| AdapterCollections.CountVia | src/main/java/mryurihi/tbnbt/adapter/impl/ArrayAdapterFactory.java:61 | the length is written with writeInt and read back with fromInt |
| AdapterCollections.ArrayOutWire | src/main/java/mryurihi/tbnbt/adapter/impl/ArrayAdapterFactory.java:71-83 | toNBT succeeds iff every element fits, writing the content id, the length and the elements |
| AdapterCollections.ElemsReadBack | src/main/java/mryurihi/tbnbt/adapter/impl/ArrayAdapterFactory.java:62-64 | the read loop reads those elements back in order |
| AdapterCollections.ArrayWireReadBack | src/main/java/mryurihi/tbnbt/adapter/impl/ArrayAdapterFactory.java:57-69 | the id, length and elements read back as the array |
| AdapterCollections.ArrayRoundTrip | src/main/java/mryurihi/tbnbt/adapter/impl/ArrayAdapterFactory.java:57-83 | an array of fitting leaf values written by toNBT reads back as the same array |
| AdapterIO.ReadNext | src/main/java/mryurihi/tbnbt/adapter/impl/ObjectAdapter.java:46 | reading the next byte agrees with AdapterSpec.ReadIn |
| AdapterIO.LeafFromNBT | src/main/java/mryurihi/tbnbt/adapter/impl/primitive/ByteAdapter.java:38-46 | the leaf adapters' fromNBT agree with AdapterSpec.LeafIn |
| AdapterIO.LeafToNBT | src/main/java/mryurihi/tbnbt/adapter/impl/primitive/LongAdapter.java:48-55 | the leaf adapters' toNBT append AdapterSpec.LeafOut's bytes and report its failure |
| AdapterIO.ReadThrough | src/main/java/mryurihi/tbnbt/adapter/AdapterRegistry.java:182-188 | from* agrees with AdapterSpec.FromVia |
| AdapterIO.ReadString | src/main/java/mryurihi/tbnbt/adapter/AdapterRegistry.java:455-461 | fromString agrees with AdapterSpec.FromString |
| AdapterIO.ReadInt | src/main/java/mryurihi/tbnbt/adapter/AdapterRegistry.java:260-266 | fromInt agrees with AdapterSpec.FromInt |
| AdapterIO.WriteThrough | src/main/java/mryurihi/tbnbt/adapter/AdapterRegistry.java:195-201 | write* appends what the looked-up adapter writes |
| AdapterIO.FromNBT | src/main/java/mryurihi/tbnbt/adapter/impl/ObjectAdapter.java:63-64 | fromNBT of any adapter agrees with AdapterSpec.Decode |
| AdapterIO.ObjectFromNBT | src/main/java/mryurihi/tbnbt/adapter/impl/ObjectAdapter.java:40-71 | ObjectAdapter.fromNBT agrees with AdapterSpec.ObjectIn |
| AdapterIO.FieldFromNBT | src/main/java/mryurihi/tbnbt/adapter/impl/ObjectAdapter.java:48-65 | one pass of the do-while agrees with AdapterSpec.FieldIn, either ending it or continuing with less input |
| AdapterIO.MapBodyFromNBT | src/main/java/mryurihi/tbnbt/adapter/impl/MapAdapterFactory.java:62-71 | the entry reading agrees with AdapterSpec.MapBody |
| AdapterIO.EntryFromNBT | src/main/java/mryurihi/tbnbt/adapter/impl/MapAdapterFactory.java:64-67 | one pass of the entry loop agrees with AdapterSpec.Entries |
| AdapterIO.MapFromNBT | src/main/java/mryurihi/tbnbt/adapter/impl/MapAdapterFactory.java:59-73 | MapAdapter.fromNBT as written agrees with AdapterSpec.MapIn |
| AdapterIO.MapFromNBTFixed | src/main/java/mryurihi/tbnbt/adapter/impl/MapAdapterFactory.java:59-73 | the corrected fromNBT agrees with AdapterSpec.MapInFixed |
| AdapterIO.ArrayFromNBT | src/main/java/mryurihi/tbnbt/adapter/impl/ArrayAdapterFactory.java:57-69 | ArrayAdapter.fromNBT agrees with AdapterSpec.ArrayIn |
| AdapterIO.ElemsFromNBT | src/main/java/mryurihi/tbnbt/adapter/impl/ArrayAdapterFactory.java:62-64 | the element loop agrees with AdapterSpec.Elems |
| AdapterIO.ElemFromNBT | src/main/java/mryurihi/tbnbt/adapter/impl/ArrayAdapterFactory.java:63 | one element read either fails as AdapterSpec.Elems does or consumes input and extends the elements read |
| AdapterIO.ToNBT | src/main/java/mryurihi/tbnbt/adapter/impl/ObjectAdapter.java:80 | toNBT of any adapter appends AdapterSpec.Encode's bytes and reports its failure |
| AdapterIO.ObjectToNBT | src/main/java/mryurihi/tbnbt/adapter/impl/ObjectAdapter.java:73-87 | ObjectAdapter.toNBT agrees with AdapterSpec.ObjectOut |
| AdapterIO.FieldsToNBT | src/main/java/mryurihi/tbnbt/adapter/impl/ObjectAdapter.java:76-82 | the field loop appends the fields' bytes and fails iff one field fails |
| AdapterIO.FieldToNBT | src/main/java/mryurihi/tbnbt/adapter/impl/ObjectAdapter.java:77-81 | one field's write extends the output or stops it with a failure |
| AdapterIO.FieldValueToNBT | src/main/java/mryurihi/tbnbt/adapter/impl/ObjectAdapter.java:81 | reading a field the object does not have throws NBTParseException and writes nothing; otherwise the output grows by AdapterSpec.Encode's bytes for the field's value and the write fails as Encode does |
| AdapterIO.MapToNBT | src/main/java/mryurihi/tbnbt/adapter/impl/MapAdapterFactory.java:75-85 | MapAdapter.toNBT agrees with the map writer |
| AdapterIO.EntriesToNBT | src/main/java/mryurihi/tbnbt/adapter/impl/MapAdapterFactory.java:79-83 | the entry loop appends the entries' bytes and reports their failure |
| AdapterIO.EntryToNBT | src/main/java/mryurihi/tbnbt/adapter/impl/MapAdapterFactory.java:80-82 | one entry's write extends the output or stops it with a failure |
| AdapterIO.ArrayToNBT | src/main/java/mryurihi/tbnbt/adapter/impl/ArrayAdapterFactory.java:71-83 | ArrayAdapter.toNBT agrees with AdapterSpec.ArrayOut |
| AdapterIO.ElemsToNBT | src/main/java/mryurihi/tbnbt/adapter/impl/ArrayAdapterFactory.java:77-79 | the element loop appends the elements' bytes and fails iff one element fails |
| AdapterIO.ElemToNBT | src/main/java/mryurihi/tbnbt/adapter/impl/ArrayAdapterFactory.java:78 | one element's write extends the output or stops it with a failure |
| NBTStreams.TagObject.Value | src/main/java/mryurihi/tbnbt/stream/NBTOutputStream.java:55-62 | the tag objects writeTag accepts are strings, shorts, byte arrays and int arrays |
| NBTStreams.SetName | src/main/java/mryurihi/tbnbt/stream/NBTOutputStream.java:57 | setName changes the name and not the value |
| NBTStreams.PayloadBytes | src/main/java/mryurihi/tbnbt/stream/NBTOutputStream.java:58 | getPayloadBytes is the name's bytes and the value's payload |
| NBTStreams.TagDocument | src/main/java/mryurihi/tbnbt/stream/NBTOutputStream.java:55-62 | a document exists iff the name fits (else IllegalArgumentException) and starts with the kind byte |
| NBTStreams.WriteBuffer | src/main/java/mryurihi/tbnbt/stream/NBTOutputStream.java:59-61 | the copied buffer is written whole |
| NBTStreams.WriteDocument | src/main/java/mryurihi/tbnbt/stream/NBTOutputStream.java:64-70 | writeFromObject's body appends NBTStreams.ObjectDocument's bytes and reports its failure |
| NBTStreams.WriteFound | src/main/java/mryurihi/tbnbt/stream/NBTOutputStream.java:64-70 | once the cascade has answered, the output grows by exactly what writeFromObject writes for that answer; no adapter writes nothing and fails |
| NBTStreams.DocumentOf | src/main/java/mryurihi/tbnbt/stream/NBTOutputStream.java:64-70 | with an adapter found, the document is the header followed by that adapter's payload and failure |
| NBTStreams.WriteHeader | src/main/java/mryurihi/tbnbt/stream/NBTOutputStream.java:67-68 | the header written is NBTStreams.Header |
| NBTStreams.Header | src/main/java/mryurihi/tbnbt/stream/NBTOutputStream.java:67-68 | the header is the adapter id byte and an empty name (0 0) |
| NBTStreams.ObjectDocument | src/main/java/mryurihi/tbnbt/stream/NBTOutputStream.java:64-70 | without an adapter nothing is written; otherwise the header and then the adapter's payload |
| NBTStreams.DocumentFrom | src/main/java/mryurihi/tbnbt/stream/NBTOutputStream.java:64-70 | a lookup that throws writes nothing and passes its exception on, and a null adapter gives NullPointerException; otherwise the document starts with the 3-byte header of the adapter's id and fails exactly as the adapter's toNBT does |
| NBTStreams.TagRead | src/main/java/mryurihi/tbnbt/stream/NBTInputStream.java:55-58 | readTag on an empty stream fails with EOFException; otherwise a named tag of the kind read |
| NBTStreams.Decoded | src/main/java/mryurihi/tbnbt/stream/NBTInputStream.java:62 | the type byte is read signed |
| NBTStreams.ObjectRead | src/main/java/mryurihi/tbnbt/stream/NBTInputStream.java:60-65 | readToType on an empty stream fails; a success needs an adapter for the type |
| NBTStreams.AfterId | src/main/java/mryurihi/tbnbt/stream/NBTInputStream.java:63-64 | after the id, a success needs an adapter for the type |
| NBTStreams.NBTOutputStream.constructor | src/main/java/mryurihi/tbnbt/stream/NBTOutputStream.java:44-49 | keeps the stream and the compression flag |
| NBTStreams.NBTOutputStream.Default | src/main/java/mryurihi/tbnbt/stream/NBTOutputStream.java:51-53 | the one-argument constructor compresses |
| NBTStreams.NBTOutputStream.WriteTag | src/main/java/mryurihi/tbnbt/stream/NBTOutputStream.java:55-62 | writeTag names the tag and writes NBTStreams.TagDocument iff it exists, else IllegalArgumentException and nothing written |
| NBTStreams.NBTOutputStream.WriteFromObject | src/main/java/mryurihi/tbnbt/stream/NBTOutputStream.java:64-70 | writeFromObject writes NBTStreams.ObjectDocument under the given registry |
| NBTStreams.NBTOutputStream.WriteFromObjectDefault | src/main/java/mryurihi/tbnbt/stream/NBTOutputStream.java:72-74 | the overload does so under a new AdapterRegistry |
| NBTStreams.NBTOutputStream.Close | src/main/java/mryurihi/tbnbt/stream/NBTOutputStream.java:76-79 | close closes the stream |
| NBTStreams.NBTInputStream.constructor | src/main/java/mryurihi/tbnbt/stream/NBTInputStream.java:44-49 | keeps the stream and the compression flag |
| NBTStreams.NBTInputStream.Default | src/main/java/mryurihi/tbnbt/stream/NBTInputStream.java:51-53 | the one-argument constructor decompresses |
| NBTStreams.NBTInputStream.ReadTag | src/main/java/mryurihi/tbnbt/stream/NBTInputStream.java:55-58 | readTag reads exactly NBTStreams.TagRead |
| NBTStreams.NBTInputStream.ReadToType | src/main/java/mryurihi/tbnbt/stream/NBTInputStream.java:60-65 | readToType reads exactly NBTStreams.ObjectRead under the given registry, with maps decoded by the corrected fromNBT |
| NBTStreams.NBTInputStream.ReadToTypeDefault | src/main/java/mryurihi/tbnbt/stream/NBTInputStream.java:67-69 | the overload does so under a new AdapterRegistry |
| NBTStreams.NBTInputStream.Close | src/main/java/mryurihi/tbnbt/stream/NBTInputStream.java:71-74 | close closes the stream |
| NBTStreams.TagDocumentReadsBack | src/main/java/mryurihi/tbnbt/stream/NBTInputStream.java:55-58 | a document writeTag writes reads back through readTag as the same tag under the same name |
| NBTStreams.NamedReadsBack | src/main/java/mryurihi/tbnbt/stream/NBTOutputStream.java:55-62 | a named tag-package payload reads back through parseTagById |
| NBTStreams.PayloadReadsBack | src/main/java/mryurihi/tbnbt/stream/NBTOutputStream.java:58 | a tag-package leaf payload reads back through the root parser |
| NBTStreams.HeaderRoundTrip | src/main/java/mryurihi/tbnbt/stream/NBTOutputStream.java:64-70 | when the adapter's payload reads back, the whole document reads back through readToType |
| NBTStreams.HeaderRead | src/main/java/mryurihi/tbnbt/stream/NBTInputStream.java:62-63 | the header's id and empty name read back |
| NBTStreams.ObjectDocumentRoundTrip | src/main/java/mryurihi/tbnbt/stream/NBTInputStream.java:60-65 | an object of leaf fields written by writeFromObject reads back through readToType |
| NBTStreams.MapDocumentRoundTrip | src/main/java/mryurihi/tbnbt/stream/NBTInputStream.java:60-65 | a non-empty map of leaf values does too, with the corrected map fromNBT |
| NBTStreams.ArrayDocumentRoundTrip | src/main/java/mryurihi/tbnbt/stream/NBTInputStream.java:60-65 | an array of fitting leaf values does too |
| NBTStreams.LeafDocumentRoundTrip | src/main/java/mryurihi/tbnbt/stream/NBTInputStream.java:60-65 | a leaf value does too |

## Left out

- GZIP: the streams keep the compression flag only and read and write the raw NBT bytes.
- src/main/java/mryurihi/tbnbt/tag/TagNBTParser.java is not part of this model. `readTag` is modelled with `NBTParser`'s reader, so a LONG_ARRAY document is read as the root parser reads it.
- The tag-package `NBTTag` base class is not part of this model beyond `newTagByType`, and `setName`/`getPayloadBytes` appear only on the four leaf classes. `writeTag` is therefore modelled over those four classes.
- `TagType` is not part of this model. Its ids are the integers 0 to 12, and `getTypeById` accepts exactly those.
- Java reflection is replaced by a described class graph (`AdapterTypes.Universe`): fields, interfaces, superclass and `@SerializedName`.
- Float and double values are kept as their IEEE bit patterns. No arithmetic on them is modelled.
- The adapters whose source is not part of this model are taken to write the tag types their names imply: Integer, Short, Float, Double, String, the array adapters and Boolean.
- `CollectionAdapterFactory` is not part of this model. Its factory entry is kept, and what it creates is a described adapter.
- `AdapterRegistry.Builder` is not part of this model.
- HashMap iteration order is a fixed permutation of the keys (`KeyOrder.Order`), not Java's hash order.
- Map keys are never null, and generic type arguments are followed one level deep.
- src/main/java/mryurihi/tbnbt/io/NBTInputStream.java and `PrimitiveLongArrayAdapter` are outside the modelled core.
- `toString`, `printStackTrace` and exception messages are not modelled. Only the exception class is kept.
- `ObjectAdapter.fromNBT` prints each field's tag name to standard output (src/main/java/mryurihi/tbnbt/adapter/impl/ObjectAdapter.java:51). That output is not modelled.
- `getDeclaredFields()` also returns static fields, which `ObjectAdapter` writes and reads back like instance fields. `AdapterTypes.Universe` describes only a class's instance fields, so static fields, and the shared state a read writes into them, are not modelled.
- Strings are kept as their UTF-8 bytes. `String.length()` is `Bytes.JavaLength`, the number of UTF-16 code units: one per character that UTF-8 writes in one to three bytes, two for a four-byte character. Malformed byte sequences and other charsets are not modelled.
- The fixture files read by NBTInputStreamTest (serializetest1.nbt, customdata.nbt, namedstring.nbt) are not part of this model, so those vectors are not stated.
- The tests' `CustomData` adapter is not part of this model.
- `addName` is called by the root NBTTagList, NBTTagString, NBTTagIntArray and NBTTagByteArray but is defined in no source file. `RootPayload.AddName` and `RootCodec.NameLast` take it to put the name's String payload in front of the bytes, the order in which the tag-package `NBTTagString.getPayloadBytes` writes.
- The root `NBTTag` declares `getPayloadBytes` as returning `List<Byte>`, while `NBTTagList` and `NBTTagString` return `byte[]` and `NBTTagCompound` returns `List<Byte>`. The model gives all of them one byte-sequence result, as if the declarations agreed.
- The root `NBTTagByte`, `NBTTagInt`, `NBTTagLong`, `NBTTagFloat` and `NBTTagDouble` classes are not part of this model. `RootCodec.Encoded` takes them to write the name first and then the fixed-width value, the layout `NBTTagShort` has, and `RootPayload.PayloadBytes` returns `RootCodec.Encoded` for them, so its agreement with `Encoded` holds by definition for those kinds.
- In `mryurihi.tbnbt.tag`, only `NBTTagList` and `NBTTagCompound` define `writePayloadBytes` and `readPayloadBytes`, and `com.github.mryurihi.tbnbt.tag.NBTTagByte` defines them for bytes. `TagSpec` takes every other leaf kind except LONG_ARRAY to be written and read in the layout the root parser reads (`TagSpec.LeafBytes`, `ParserSpec.LeafPayload`). Those layouts are assumed, not taken from the source.
- LONG_ARRAY has no reader in the root parser: `NBTParser.parseTagById` stops at id 11 (src/main/java/mryurihi/tbnbt/NBTParser.java:37-48). Its layout, a 4-byte count followed by one 8-byte big-endian long per element (`TagSpec.LeafBytes`, `TagSpec.LongsBytes`), is assumed by analogy with INT_ARRAY, not taken from the source.
- PayloadBytes (RootPayload): the root tags hold their children as values, not as shared `NBTTag` objects. A list element is written without a name, and a compound member under its key. Java writes each child's own `name` field, which a later `add` or `setName` on that child can change, and it writes a child's later mutations. Neither is captured, nor are aliasing and self-containing tags.
- Encoded: the same value copies. List elements are encoded unnamed and members under their keys, not under each child object's own name field.
- ListPayloadBytes: the same value copies. `NBTTagList.getPayloadBytes` writes each element object's own name, which the model takes to be null, as `add` leaves it.
- ElemsOut (RootPayload): the same value copies as ListPayloadBytes.
- CompoundPayloadBytes: the same value copies. Each member is written under its key, not under the member object's own name field.
- MembersOut: the same value copies as CompoundPayloadBytes.
- NewList: the list keeps unnamed copies of the caller's tags, not the caller's `List` and its objects. Later changes to those objects and their names are not seen.
- NewCompound: the compound keeps copies of the members, so later changes to the stored objects are not seen.
- GetPayloadBytes (RootTags.NBTTag): the bytes are those of the value copies, so children's own names and their later mutations are not reflected.
- Add (RootTags.NBTTag, TagObjects.TagList): the list stores a copy of the child's tag. `l.add(l)` stores the list's previous value instead of the list itself, so the cycle Java builds (and its unbounded write) is not modelled. A root child whose own value is null is stored as the empty value of its kind, so the NullPointerException Java throws when the list is written is not modelled.
- AddAt (RootTags.NBTTag, TagObjects.TagList): the same value copy as Add, including for `l.add(i, l)`.
- Set (TagObjects.TagList): the list stores a copy of the element, so later changes to the element are not seen.
- FromList (TagObjects.TagList): `NBTTagList(List)` keeps the caller's `List` itself. The model stores a snapshot of its elements, so later changes the caller makes to that list, and later changes to its element objects, are not seen. Aliasing between the caller's list and the tag is not captured.
- Copy (TagObjects.TagList): `NBTTagList(List, TagType)` copies the list but shares the caller's tag objects. The model stores their values, so later changes to those element objects are not seen.
- SetValue (TagObjects.TagList): `setValue` keeps the caller's `List` itself, and may store null. The model stores a snapshot of a non-null list, so the aliasing, later changes to the list or its elements, and the NullPointerException a later `add` or write throws on a null list are not captured.
- constructor, SetValue (TagObjects.TagCompound): `NBTTagCompound(Map)` and `setValue` copy the map but share the caller's tag objects. The model stores the members' values, so later changes to those member objects are not seen.
- Put (RootTags.NBTTag, TagObjects.TagCompound): the compound stores a copy of the child's tag. In the root package, `c.put(k, c)` stores the compound's previous value, not the compound itself.
- SetCompoundValue: the compound keeps copies of the map's tags. A map that holds the compound itself stores the compound's previous value.
- GetPayloadBytes (TagLeaves.TagByteArray, TagLeaves.TagIntArray): a null array value is not modelled. Java's constructor and `setValue` store null, and `getPayloadBytes` then throws NullPointerException after writing the name; the model's value is always an array. The constructors and SetValue of these two classes take an array for the same reason.
- Decode: every map is decoded with the corrected `AdapterSpec.MapInFixed`, which returns the map it read. As written, `MapAdapter.fromNBT` returns null at every level (`AdapterSpec.MapIn`, `AdapterCollections.MapRoundTrip`), see Findings.
- FromNBT: dispatches maps to `AdapterIO.MapFromNBTFixed`, so a map comes back where Java returns null. `AdapterIO.MapFromNBT` models the code as written.
- ObjectRead: a document whose type resolves to a map adapter reads back as the map, where Java's `readToType` returns null, and so does a map nested at any depth.
- AfterId: the same corrected map dispatch as ObjectRead.
- ReadToType: returns the map where Java's `readToType` returns null, as ObjectRead does.
- ReadToTypeDefault: the same as ReadToType, under a new registry.
- Round trips through the adapters are proved for objects, maps and arrays whose values are leaf values. Nested objects inside objects, maps or arrays are read and written by the same functions but carry no round-trip lemma.

## Findings

| source | as written | input that shows it | evidently intended | confidence | as-written member | corrected member |
|---|---|---|---|---|---|---|
| src/main/java/mryurihi/tbnbt/adapter/impl/MapAdapterFactory.java:72 | `fromNBT` reads every entry into a new map and then returns null | any non-empty map of leaf values written by `toNBT` (AdapterCollections.MapRoundTrip) | return the map it filled | not executed | AdapterSpec.MapIn | AdapterSpec.MapInFixed |
| src/main/java/mryurihi/tbnbt/adapter/AdapterRegistry.java:482 | `getIntArrayAdapter` looks up `Long[]` | a new registry: the adapter returned writes LONG_ARRAY (Registry.IntArrayGetterMismatch) | look up `Integer[]`, as `fromIntArray` and `writeIntArray` do | not executed | Registry.IntArrayGetterMismatch | Registry.DefaultGettersNamed |
