// The value model shared by every revision of the codec: the kind ids of
// TagType and one Tag constructor per kind.  Java's null, which lists and
// compounds can hold after a lenient read, is None.
module Tags {
  import opened Bytes

  // TagType ids as they appear on the wire.
  const EndId: int := 0
  const ByteId: int := 1
  const ShortId: int := 2
  const IntId: int := 3
  const LongId: int := 4
  const FloatId: int := 5
  const DoubleId: int := 6
  const ByteArrayId: int := 7
  const StringId: int := 8
  const ListId: int := 9
  const CompoundId: int := 10
  const IntArrayId: int := 11
  const LongArrayId: int := 12

  /** An element of a list or a member of a compound: a tag, or Java's null. */
  type Slot = Option<Tag>

  datatype Tag =
    | ByteTag(b: JByte)
    | ShortTag(s: JShort)
    | IntTag(i: JInt)
    | LongTag(l: JLong)
    | FloatTag(fbits: seq<Byte>)          // IEEE 754 pattern, kept opaque
    | DoubleTag(dbits: seq<Byte>)         // IEEE 754 pattern, kept opaque
    | ByteArrayTag(bytes: seq<JByte>)
    | StringTag(str: Str)
    | ListTag(elemType: int, elems: seq<Slot>)
    | CompoundTag(members: map<Str, Slot>)
    | IntArrayTag(ints: seq<JInt>)
    | LongArrayTag(longs: seq<JLong>)

  /** A tag of the root package together with its name field (null is None). */
  datatype Named = Named(name: Option<Str>, tag: Tag)

  /** getTagType: the kind id each tag class reports. */
  function KindId(t: Tag): (r: int)
    ensures ByteId <= r <= LongArrayId
  {
    match t
    case ByteTag(_) => ByteId
    case ShortTag(_) => ShortId
    case IntTag(_) => IntId
    case LongTag(_) => LongId
    case FloatTag(_) => FloatId
    case DoubleTag(_) => DoubleId
    case ByteArrayTag(_) => ByteArrayId
    case StringTag(_) => StringId
    case ListTag(_, _) => ListId
    case CompoundTag(_) => CompoundId
    case IntArrayTag(_) => IntArrayId
    case LongArrayTag(_) => LongArrayId
  }

  /** The kind of a slot; null has none and answers NullPointerException. */
  function SlotKind(e: Slot): (r: Result<int>)
    ensures r.Ok? <==> e.Some?
    ensures r.Ok? ==> r.value == KindId(e.value)
  {
    if e.None? then Err(NullPointer) else Ok(KindId(e.value))
  }

  /**
   * getAsTagByte, getAsTagShort, ...: Class.cast of the receiver to the class
   * of the given kind. It succeeds for exactly one kind, the tag's own, and then
   * returns the tag itself.
   */
  function CastTo(t: Tag, kind: int): (r: Result<Tag>)
    ensures r.Ok? <==> kind == KindId(t)
    ensures r.Ok? ==> r.value == t
    ensures r.Err? ==> r.error == ClassCast
  {
    if KindId(t) == kind then Ok(t) else Err(ClassCast)
  }
}
