// The stream codec of the package mryurihi.tbnbt.tag, as pure functions:
// what writePayloadBytes writes and what it leaves of the tag it was called
// on, and what NBTTag.newTagByType reads.  The classes of module TagObjects
// are proved to behave as these describe.
//
// The package shows the stream methods of NBTTagList and NBTTagCompound
// only.  The leaf kinds are read and written in the layout the rest of the
// repository uses for them (LeafBytes, ParserSpec.LeafPayload).
module TagSpec {
  import opened Bytes
  import opened Tags
  import ParserSpec
  import RootCodec
  import RootRoundTrip

  /**
   * TagType.getTypeById: the kind of an id.  TagType is not part of this
   * model; an id outside 0..12 is taken to have no kind.
   */
  function TypeById(id: int): (r: Result<int>)
    ensures r.Ok? <==> EndId <= id <= LongArrayId
    ensures r.Ok? ==> r.value == id
  {
    if EndId <= id <= LongArrayId then Ok(id) else Err(UnknownTagType)
  }

  // ---------------------------------------------------------------------
  // writePayloadBytes
  // ---------------------------------------------------------------------

  /** The 8-byte big-endian forms of a sequence of longs, back to back. */
  function LongsBytes(v: seq<int>): (r: seq<Byte>)
    ensures |r| == 8 * |v|
  {
    if v == [] then [] else LongBytes(v[0]) + LongsBytes(v[1..])
  }

  /**
   * writePayloadBytes of a kind that holds no other tags: the value
   * big-endian, arrays after their int length.  A string's length is its
   * character count, as NBTTagString.getPayloadBytes of this package has it.
   */
  function LeafBytes(t: Tag): (r: seq<Byte>)
    requires !t.ListTag? && !t.CompoundTag?
    ensures t.ByteTag? ==> |r| == 1
    ensures t.ShortTag? ==> |r| == 2
    ensures t.IntTag? ==> |r| == 4
    ensures t.LongTag? ==> |r| == 8
    ensures t.ByteArrayTag? ==> |r| == 4 + |t.bytes| && SignedBytes(r[4..]) == t.bytes
    ensures t.StringTag? ==> |r| == 2 + |t.str| && r[2..] == t.str
    ensures t.IntArrayTag? ==> |r| == 4 + 4 * |t.ints|
    ensures t.LongArrayTag? ==> |r| == 4 + 8 * |t.longs|
  {
    match t
    case ByteTag(b) => EncodeSigned(b, 1)
    case ShortTag(v) => ShortBytes(v)
    case IntTag(v) => IntBytes(v)
    case LongTag(v) => LongBytes(v)
    case FloatTag(bits) => bits
    case DoubleTag(bits) => bits
    case ByteArrayTag(v) => IntBytes(|v|) + UnsignedBytes(v)
    case StringTag(v) => ShortBytes(JavaLength(v)) + v
    case IntArrayTag(v) => IntBytes(|v|) + IntsBytes(v)
    case LongArrayTag(v) => IntBytes(|v|) + LongsBytes(v)
  }

  /**
   * What a writePayloadBytes call leaves behind: the bytes it wrote, the
   * exception that stopped it (None when it returned normally), and the state
   * of the tag it was called on.
   */
  datatype Written<T> = Written(bytes: seq<Byte>, failure: Option<Error>, after: T)

  /**
   * writePayloadBytes of a tag.  A compound first replaces its map by an
   * empty one, so it writes only the closing 0 and is left empty.  A list
   * writes its element id, its size and then each element, and stops with a
   * NullPointerException at a null element.
   */
  function WriteOut(t: Tag): (w: Written<Tag>)
    ensures KindId(w.after) == KindId(t)
    decreases t, 1
  {
    match t
    case CompoundTag(_) => Written([0], None, CompoundTag(map[]))
    case ListTag(id, elems) =>
      var es := WriteElems(t, 0);
      Written(EncodeSigned(id, 1) + IntBytes(|elems|) + es.bytes, es.failure, ListTag(id, es.after))
    case _ => Written(LeafBytes(t), None, t)
  }

  /** The list loop from element i on; the elements it does not reach keep their state. */
  function WriteElems(t: Tag, i: nat): (w: Written<seq<Slot>>)
    requires t.ListTag? && i <= |t.elems|
    ensures |w.after| == |t.elems| - i
    decreases t, 0, |t.elems| - i
  {
    if i == |t.elems| then Written([], None, [])
    else if t.elems[i].None? then Written([], Some(NullPointer), t.elems[i..])
    else
      var e := WriteOut(t.elems[i].value);
      if e.failure.Some? then Written(e.bytes, e.failure, [Some(e.after)] + t.elems[i + 1..])
      else
        var es := WriteElems(t, i + 1);
        Written(e.bytes + es.bytes, es.failure, [Some(e.after)] + es.after)
  }

  // ---------------------------------------------------------------------
  // newTagByType and readPayloadBytes
  // ---------------------------------------------------------------------

  /** n longs of 8 bytes each, read one readLong at a time. */
  function Longs(s: seq<Byte>, n: nat): (r: Result<Read<seq<JLong>>>)
    ensures r.Ok? ==> |r.value.value| == n && |s| == 8 * n + |r.value.rest|
    decreases n
  {
    WidthBounds();
    if n == 0 then Ok(Read([], s))
    else
      var x :- ReadSigned(s, 8);
      var xs :- Longs(x.rest, n - 1);
      var v: JLong := x.value;
      Ok(Read([v] + xs.value, xs.rest))
  }

  /** The payload of a long array: an int length, then that many longs. */
  function LongArrayPayload(s: seq<Byte>): (r: Result<Read<seq<JLong>>>)
    ensures r.Ok? ==> |s| == 4 + 8 * |r.value.value| + |r.value.rest|
  {
    WidthBounds();
    var len :- ReadSigned(s, 4);
    if len.value < 0 then Err(NegativeArraySize)
    else Longs(len.rest, len.value)
  }

  /**
   * NBTTag.newTagByType: a fresh tag of the given kind filled by its
   * readPayloadBytes; END and any other kind give null and read nothing.  A
   * fresh compound has no map, so that kind never succeeds.
   */
  function NewTagByType(s: seq<Byte>, kind: int): (r: Result<Read<Slot>>)
    ensures r.Ok? ==> |r.value.rest| <= |s|
    ensures r.Ok? ==> (r.value.value.Some? <==> ByteId <= kind <= LongArrayId)
    ensures r.Ok? && r.value.value.Some? ==> KindId(r.value.value.value) == kind
    ensures !(ByteId <= kind <= LongArrayId) ==> r == Ok(Read(None, s))
    ensures kind == CompoundId ==> r.Err?
    decreases |s|, 2, 0
  {
    if kind < ByteId || kind > LongArrayId then Ok(Read(None, s))
    else if kind == ListId then
      var l :- ListRead(s);
      Ok(Read(Some(l.value), l.rest))
    else if kind == CompoundId then
      AsCompound(Members(s, None))
    else if kind == LongArrayId then
      var v :- LongArrayPayload(s);
      Ok(Read(Some(LongArrayTag(v.value)), v.rest))
    else
      var v :- ParserSpec.LeafPayload(s, kind);
      Ok(Read(Some(v.value), v.rest))
  }

  /** The compound a successful member loop fills, as newTagByType returns it. */
  function AsCompound(r: Result<Read<map<Str, Slot>>>): (c: Result<Read<Slot>>)
    ensures c.Ok? <==> r.Ok?
  {
    if r.Err? then Err(r.error) else Ok(Read(Some(CompoundTag(r.value.value)), r.value.rest))
  }

  /**
   * NBTTagList.readPayloadBytes: the element id byte, an int count, the kind
   * of that id, then count results of newTagByType of that kind.
   */
  function ListRead(s: seq<Byte>): (r: Result<Read<Tag>>)
    ensures r.Ok? ==> |r.value.rest| < |s| && r.value.value.ListTag?
    decreases |s|, 1, 0
  {
    var id :- ReadSigned(s, 1);
    var len :- ReadSigned(id.rest, 4);
    var kind :- TypeById(id.value);
    var elems :- Elements(len.rest, kind, if len.value < 0 then 0 else len.value);
    Ok(Read(ListTag(kind, elems.value), elems.rest))
  }

  /** The loop of NBTTagList.readPayloadBytes: n results of newTagByType, in order. */
  function Elements(s: seq<Byte>, kind: int, n: nat): (r: Result<Read<seq<Slot>>>)
    ensures r.Ok? ==> |r.value.value| == n && |r.value.rest| <= |s|
    ensures r.Ok? ==> forall i :: 0 <= i < n ==>
      (r.value.value[i].Some? <==> ByteId <= kind <= LongArrayId) &&
      (r.value.value[i].Some? ==> KindId(r.value.value[i].value) == kind)
    decreases |s|, 3, n
  {
    if n == 0 then Ok(Read([], s))
    else
      var e :- NewTagByType(s, kind);
      var es :- Elements(e.rest, kind, n - 1);
      var all := [e.value] + es.value;
      assert forall i :: 1 <= i < n ==> all[i] == es.value[i - 1];
      Ok(Read(all, es.rest))
  }

  /**
   * The do-while of NBTTagCompound.readPayloadBytes on the map acc (None:
   * the map is null): read a type byte, a String payload as the name and a
   * tag of that type, then put; stop after the pass whose type byte was 0,
   * which still reads a name and stores null under it.  Java evaluates the
   * receiver, then both arguments, then fails on a null receiver, so a null
   * map fails only after the first member has been read.
   */
  function Members(s: seq<Byte>, acc: Option<map<Str, Slot>>): (r: Result<Read<map<Str, Slot>>>)
    ensures acc.None? ==> r.Err?
    ensures r.Ok? ==> |r.value.rest| < |s|
    decreases |s|, 1, 0
  {
    var t :- ReadSigned(s, 1);
    var name :- ParserSpec.StringPayload(t.rest);
    var kind :- TypeById(t.value);
    var child :- NewTagByType(name.rest, kind);
    if acc.None? then Err(NullPointer)
    else
      var m := acc.value[name.value := child.value];
      if t.value == 0 then Ok(Read(m, child.rest))
      else Members(child.rest, Some(m))
  }

  // ---------------------------------------------------------------------
  // Writing, then reading back
  // ---------------------------------------------------------------------

  /**
   * The tags this package reads back as it writes them: strings of one byte
   * per character that fit a short, floats and doubles of their width,
   * arrays and lists that fit an int length, lists of a known kind whose
   * elements are non-null and of that kind, and no compound anywhere (a
   * compound writes none of its members and cannot be read).
   */
  predicate Readable(t: Tag)
    decreases t
  {
    match t
    case FloatTag(bits) => |bits| == 4
    case DoubleTag(bits) => |bits| == 8
    case ByteArrayTag(v) => |v| < 0x8000_0000
    case StringTag(v) => RootRoundTrip.GoodString(v)
    case ListTag(id, elems) =>
      EndId <= id <= LongArrayId && |elems| < 0x8000_0000 &&
      forall i :: 0 <= i < |elems| ==> elems[i].Some? && KindId(elems[i].value) == id && Readable(elems[i].value)
    case CompoundTag(_) => false
    case IntArrayTag(v) => |v| < 0x8000_0000
    case LongArrayTag(v) => |v| < 0x8000_0000
    case _ => true
  }

  /**
   * Round trip: writing a readable tag succeeds and leaves it unchanged, and
   * newTagByType of its kind reads the bytes back as that tag, leaving what
   * followed them.
   */
  lemma {:induction false} RoundTrip(t: Tag, rest: seq<Byte>)
    requires Readable(t)
    ensures WriteOut(t).failure.None? && WriteOut(t).after == t
    ensures NewTagByType(WriteOut(t).bytes + rest, KindId(t)) == Ok(Read(Some(t), rest))
    decreases t, 1, 0
  {
    if t.ListTag? {
      ListRoundTrip(t, rest);
    } else {
      LeafRoundTrip(t, rest);
    }
  }

  /** n longs written back to back read back as those longs. */
  lemma {:induction false} LongsRoundTrip(v: seq<JLong>, rest: seq<Byte>)
    ensures Longs(LongsBytes(v) + rest, |v|) == Ok(Read(v, rest))
  {
    WidthBounds();
    if v != [] {
      var tail := LongsBytes(v[1..]) + rest;
      assert LongsBytes(v) + rest == EncodeSigned(v[0], 8) + tail;
      ReadSignedEncoded(v[0], 8, tail);
      LongsRoundTrip(v[1..], rest);
      assert [v[0]] + v[1..] == v;
    } else {
      assert LongsBytes(v) + rest == rest;
    }
  }

  lemma LongArrayRoundTrip(v: seq<JLong>, rest: seq<Byte>)
    requires |v| < 0x8000_0000
    ensures LongArrayPayload(IntBytes(|v|) + LongsBytes(v) + rest) == Ok(Read(v, rest))
  {
    ConcatAssoc(IntBytes(|v|), LongsBytes(v), rest);
    ReadIntLength(|v|, LongsBytes(v) + rest);
    LongsRoundTrip(v, rest);
  }

  /** The leaf kinds read back through the same readers NBTParser uses, and long arrays as above. */
  lemma LeafRoundTrip(t: Tag, rest: seq<Byte>)
    requires Readable(t) && !t.ListTag? && !t.CompoundTag?
    ensures NewTagByType(LeafBytes(t) + rest, KindId(t)) == Ok(Read(Some(t), rest))
  {
    if t.LongArrayTag? {
      LongArrayRoundTrip(t.longs, rest);
    } else if t.StringTag? {
      RootRoundTrip.StringRoundTrip(t.str, rest);
      assert ParserSpec.LeafPayload(LeafBytes(t) + rest, StringId) == Ok(Read(t, rest));
    } else if t.ByteArrayTag? {
      RootRoundTrip.ByteArrayRoundTrip(t.bytes, rest);
      assert ParserSpec.LeafPayload(LeafBytes(t) + rest, ByteArrayId) == Ok(Read(t, rest));
    } else if t.IntArrayTag? {
      RootRoundTrip.IntArrayRoundTrip(t.ints, rest);
      assert ParserSpec.LeafPayload(LeafBytes(t) + rest, IntArrayId) == Ok(Read(t, rest));
    } else if t.FloatTag? || t.DoubleTag? {
      assert LeafBytes(t) == RootCodec.Body(t).value;
      RootRoundTrip.BitsRoundTrip(t, rest);
    } else {
      assert LeafBytes(t) == RootCodec.Body(t).value;
      RootRoundTrip.NumberRoundTrip(t, rest);
    }
  }

  /** A list: its element id, its size, then its elements. */
  lemma {:induction false} ListRoundTrip(t: Tag, rest: seq<Byte>)
    requires t.ListTag? && Readable(t)
    ensures WriteOut(t).failure.None? && WriteOut(t).after == t
    ensures NewTagByType(WriteOut(t).bytes + rest, ListId) == Ok(Read(Some(t), rest))
    decreases t, 0, |t.elems| + 1
  {
    WidthBounds();
    var id, elems := t.elemType, t.elems;
    ElemsRoundTrip(t, 0, rest);
    var es := WriteElems(t, 0).bytes;
    assert elems[0..] == elems;
    var a, b := EncodeSigned(id, 1), IntBytes(|elems|);
    assert WriteOut(t).bytes == a + b + es;
    ConcatAssoc4(a, b, es, rest);
    ConcatAssoc(b, es, rest);
    ReadSignedEncoded(id, 1, b + (es + rest));
    ReadIntLength(|elems|, es + rest);
    assert ListRead(WriteOut(t).bytes + rest) == Ok(Read(t, rest));
  }

  /** The list loop from element i on writes the elements from i on, which read back in order. */
  lemma {:induction false} ElemsRoundTrip(t: Tag, i: nat, rest: seq<Byte>)
    requires t.ListTag? && Readable(t) && i <= |t.elems|
    ensures WriteElems(t, i).failure.None? && WriteElems(t, i).after == t.elems[i..]
    ensures Elements(WriteElems(t, i).bytes + rest, t.elemType, |t.elems| - i) == Ok(Read(t.elems[i..], rest))
    decreases t, 0, |t.elems| - i
  {
    if i == |t.elems| {
      assert WriteElems(t, i).bytes + rest == rest;
      assert t.elems[i..] == [];
    } else {
      ElemReadable(t, i);
      var e := t.elems[i].value;
      ElemsRoundTrip(t, i + 1, rest);
      RoundTrip(e, WriteElems(t, i + 1).bytes + rest);
      ElemsGlue(t, i, e, rest);
    }
  }

  /** An element of a readable list is present, readable and of the list's kind. */
  lemma ElemReadable(t: Tag, i: nat)
    requires t.ListTag? && Readable(t) && i < |t.elems|
    ensures t.elems[i].Some? && KindId(t.elems[i].value) == t.elemType && Readable(t.elems[i].value)
  {
  }

  /** One step of ElemsRoundTrip: element i written and read back, in front of the elements after it. */
  lemma ElemsGlue(t: Tag, i: nat, e: Tag, rest: seq<Byte>)
    requires t.ListTag? && i < |t.elems| && t.elems[i] == Some(e)
    requires WriteOut(e).failure.None? && WriteOut(e).after == e
    requires WriteElems(t, i + 1).failure.None? && WriteElems(t, i + 1).after == t.elems[i + 1..]
    requires
      var tail := WriteElems(t, i + 1).bytes + rest;
      NewTagByType(WriteOut(e).bytes + tail, t.elemType) == Ok(Read(Some(e), tail))
    requires Elements(WriteElems(t, i + 1).bytes + rest, t.elemType, |t.elems| - i - 1) == Ok(Read(t.elems[i + 1..], rest))
    ensures WriteElems(t, i).failure.None? && WriteElems(t, i).after == t.elems[i..]
    ensures Elements(WriteElems(t, i).bytes + rest, t.elemType, |t.elems| - i) == Ok(Read(t.elems[i..], rest))
  {
    var es := WriteElems(t, i + 1).bytes;
    var tail := es + rest;
    var x := WriteOut(e).bytes;
    assert WriteElems(t, i).bytes + rest == x + tail by {
      ConcatAssoc(x, es, rest);
    }
    ElementsStep(x + tail, t.elemType, |t.elems| - i, e, tail);
    ConsSlice(t.elems, i);
  }

  lemma ConsSlice<T>(s: seq<T>, i: nat)
    requires i < |s|
    ensures [s[i]] + s[i + 1..] == s[i..]
  {
  }

  /** One element of the list loop: the element read, then the remaining n - 1. */
  lemma ElementsStep(s: seq<Byte>, kind: int, n: nat, e: Tag, rest: seq<Byte>)
    requires n > 0 && NewTagByType(s, kind) == Ok(Read(Some(e), rest))
    ensures Elements(s, kind, n) == ParserSpec.Prefixed([Some(e)], Elements(rest, kind, n - 1))
  {
  }
}
