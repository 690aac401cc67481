// NBTParser (src/main/java/mryurihi/tbnbt/NBTParser.java): the recursive,
// stream-consuming reader of the root package.  Every method consumes the
// DataInputStream step by step, fills its buffers in loops as the Java code
// does, and is proved to return and consume exactly what the pure reader
// of module ParserSpec describes.
module NBTParser {
  import opened Bytes
  import opened Tags
  import opened Streams
  import opened ParserSpec

  /** parseTagById: dispatch on the kind id; 0 and unknown ids read nothing and give null. */
  method ParseTagById(input: Input, id: int, named: bool) returns (r: Result<Option<Named>>)
    modifies input`data
    ensures Matches(r, TagById(old(input.data), id, named), input.data)
    decreases |input.data|, 3, 0
  {
    if id < ByteId || id > IntArrayId {
      return Ok(None);
    }
    var t: Named;
    if id == ListId {
      t :- ParseTagList(input, named);
    } else if id == CompoundId {
      t :- ParseTagCompound(input, named);
    } else if id == StringId {
      t :- ParseTagString(input, named);
    } else if id == ByteArrayId {
      t :- ParseTagByteArray(input, named);
    } else if id == IntArrayId {
      t :- ParseTagIntArray(input, named);
    } else {
      t :- ParseTagFixed(input, id, named);
    }
    return Ok(Some(t));
  }

  /** The name read by parseTagString(in, false).getValue() when named. */
  method ParseName(input: Input, named: bool) returns (r: Result<Option<Str>>)
    modifies input`data
    ensures Matches(r, NameOf(old(input.data), named), input.data)
  {
    if !named {
      return Ok(None);
    }
    UnnamedString(input.data);
    var s :- ParseTagString(input, false);
    return Ok(Some(s.tag.str));
  }

  /**
   * parseTagByte, parseTagShort, parseTagInt, parseTagLong, parseTagFloat and
   * parseTagDouble: the name, then one fixed-width read.
   */
  method ParseTagFixed(input: Input, id: int, named: bool) returns (r: Result<Named>)
    requires id in {ByteId, ShortId, IntId, LongId, FloatId, DoubleId}
    modifies input`data
    ensures Matches(r, Parsed(old(input.data), id, named), input.data)
  {
    WidthBounds();
    var name :- ParseName(input, named);
    var t: Tag;
    if id == ByteId {
      var v :- input.ReadByte();
      t := ByteTag(v);
    } else if id == ShortId {
      var v :- input.ReadShort();
      t := ShortTag(v);
    } else if id == IntId {
      var v :- input.ReadInt();
      t := IntTag(v);
    } else if id == LongId {
      var v :- input.ReadLong();
      t := LongTag(v);
    } else if id == FloatId {
      var v :- input.ReadFully(4);
      t := FloatTag(v);
    } else {
      var v :- input.ReadFully(8);
      t := DoubleTag(v);
    }
    return Ok(Named(name, t));
  }

  /** parseTagString: the name (itself read by parseTagString), then the string. */
  method ParseTagString(input: Input, named: bool) returns (r: Result<Named>)
    modifies input`data
    ensures Matches(r, Parsed(old(input.data), StringId, named), input.data)
    decreases if named then 1 else 0
  {
    ghost var s0 := input.data;
    var name: Option<Str> := None;
    if named {
      UnnamedString(input.data);
      var n :- ParseTagString(input, false);
      name := Some(n.tag.str);
    }
    assert NameOf(s0, named) == Ok(Read(name, input.data));
    var v :- ReadStringPayload(input);
    return Ok(Named(name, StringTag(v)));
  }

  /** The body of parseTagString: a signed short length, then a byte[] filled one readByte at a time. */
  method ReadStringPayload(input: Input) returns (r: Result<Str>)
    modifies input`data
    ensures Matches(r, StringPayload(old(input.data)), input.data)
  {
    ghost var s0 := input.data;
    var length :- input.ReadShort();
    if length < 0 {
      return Err(NegativeArraySize);
    }
    ghost var start := input.data;
    var str := new Byte[length];
    var i := 0;
    while i < length
      invariant 0 <= i <= length
      invariant i <= |start| && input.data == start[i..]
      invariant str[..i] == start[..i]
    {
      var b :- input.ReadByte();
      str[i] := UnsignedByte(b);
      i := i + 1;
    }
    assert str[..] == str[..length] == start[..length];
    return Ok(str[..]);
  }

  /** parseTagByteArray: the name, then the array. */
  method ParseTagByteArray(input: Input, named: bool) returns (r: Result<Named>)
    modifies input`data
    ensures Matches(r, Parsed(old(input.data), ByteArrayId, named), input.data)
  {
    var name :- ParseName(input, named);
    var v :- ReadByteArrayPayload(input);
    return Ok(Named(name, ByteArrayTag(v)));
  }

  /** The body of parseTagByteArray: an int length, then a byte[] filled one readByte at a time. */
  method ReadByteArrayPayload(input: Input) returns (r: Result<seq<JByte>>)
    modifies input`data
    ensures Matches(r, ByteArrayPayload(old(input.data)), input.data)
  {
    var length :- input.ReadInt();
    if length < 0 {
      return Err(NegativeArraySize);
    }
    ghost var start := input.data;
    var b := new JByte[length];
    var i := 0;
    while i < length
      invariant 0 <= i <= length
      invariant i <= |start| && input.data == start[i..]
      invariant forall k :: 0 <= k < i ==> b[k] == SignedByte(start[k])
    {
      var v :- input.ReadByte();
      b[i] := v;
      i := i + 1;
    }
    assert b[..] == SignedBytes(start[..length]);
    return Ok(b[..]);
  }

  /** parseTagIntArray: the name, then the array. */
  method ParseTagIntArray(input: Input, named: bool) returns (r: Result<Named>)
    modifies input`data
    ensures Matches(r, Parsed(old(input.data), IntArrayId, named), input.data)
  {
    var name :- ParseName(input, named);
    var v :- ReadIntArrayPayload(input);
    return Ok(Named(name, IntArrayTag(v)));
  }

  /** The body of parseTagIntArray: an int length, then an int[] filled one readInt at a time. */
  method ReadIntArrayPayload(input: Input) returns (r: Result<seq<JInt>>)
    modifies input`data
    ensures Matches(r, IntArrayPayload(old(input.data)), input.data)
  {
    var length :- input.ReadInt();
    if length < 0 {
      return Err(NegativeArraySize);
    }
    r := ReadInts(input, length);
  }

  /** The loop of parseTagIntArray: n ints, one readInt at a time, into a fresh int[n]. */
  method ReadInts(input: Input, n: nat) returns (r: Result<seq<JInt>>)
    modifies input`data
    ensures Matches(r, Ints(old(input.data), n), input.data)
  {
    ghost var start := input.data;
    var ints := new JInt[n];
    var i := 0;
    PrefixedIntsNothing(Ints(start, n));
    while i < n
      invariant 0 <= i <= n
      invariant Ints(start, n) == PrefixedInts(ints[..i], Ints(input.data, n - i))
    {
      IntsStep(input.data, n - i);
      var v :- input.ReadInt();
      ints[i] := v;
      PrefixedIntsTwice(ints[..i], [v], Ints(input.data, n - i - 1));
      SliceSnoc(ints[..], i);
      i := i + 1;
    }
    assert ints[..] == ints[..n];
    assert ints[..] + [] == ints[..];
    return Ok(ints[..]);
  }

  /** The ints pre, followed by those of r, when r succeeds. */
  function PrefixedInts(pre: seq<JInt>, r: Result<Read<seq<JInt>>>): (p: Result<Read<seq<JInt>>>)
  {
    if r.Err? then r else Ok(Read(pre + r.value.value, r.value.rest))
  }

  lemma PrefixedIntsNothing(r: Result<Read<seq<JInt>>>)
    ensures PrefixedInts([], r) == r
  {
    if r.Ok? {
      assert [] + r.value.value == r.value.value;
    }
  }

  lemma PrefixedIntsTwice(a: seq<JInt>, b: seq<JInt>, r: Result<Read<seq<JInt>>>)
    ensures PrefixedInts(a, PrefixedInts(b, r)) == PrefixedInts(a + b, r)
  {
    if r.Ok? {
      assert a + (b + r.value.value) == (a + b) + r.value.value;
    }
  }

  lemma IntsStep(s: seq<Byte>, n: nat)
    requires n > 0
    ensures ReadSigned(s, 4).Err? ==> Ints(s, n) == Err(EndOfStream)
    ensures ReadSigned(s, 4).Ok? ==>
      Ints(s, n) == PrefixedInts([ReadSigned(s, 4).value.value], Ints(ReadSigned(s, 4).value.rest, n - 1))
  {
    WidthBounds();
  }

  /** parseTagList: the name, then the list. */
  method ParseTagList(input: Input, named: bool) returns (r: Result<Named>)
    modifies input`data
    ensures Matches(r, Parsed(old(input.data), ListId, named), input.data)
    decreases |input.data|, 2, 1
  {
    var name :- ParseName(input, named);
    var t :- ReadListPayload(input);
    return Ok(Named(name, t));
  }

  /** The body of parseTagList: the element id byte, an int count, then count unnamed elements. */
  method ReadListPayload(input: Input) returns (r: Result<Tag>)
    modifies input`data
    ensures Matches(r, ListPayload(old(input.data)), input.data)
    decreases |input.data|, 2, 0
  {
    ghost var s0 := input.data;
    var typeId :- input.ReadByte();
    var length :- input.ReadInt();
    ghost var start := input.data;
    ghost var n: nat := if length < 0 then 0 else length;
    var aux: seq<Slot> := [];
    var i := 0;
    PrefixedNothing(Elements(start, typeId, n));
    while i < length
      invariant 0 <= i <= n
      invariant |input.data| <= |start| < |s0|
      invariant Elements(start, typeId, n) == Prefixed(aux, Elements(input.data, typeId, n - i))
    {
      ghost var before := input.data;
      var t :- ParseTagById(input, typeId, false);
      assert Elements(before, typeId, n - i) == Prefixed([SlotOf(t)], Elements(input.data, typeId, n - i - 1));
      PrefixedTwice(aux, [SlotOf(t)], Elements(input.data, typeId, n - i - 1));
      aux := aux + [SlotOf(t)];
      i := i + 1;
    }
    assert Elements(input.data, typeId, 0) == Ok(Read([], input.data));
    assert aux + [] == aux;
    return Ok(ListTag(typeId, aux));
  }

  /** parseTagCompound: the name, then the members. */
  method ParseTagCompound(input: Input, named: bool) returns (r: Result<Named>)
    modifies input`data
    ensures Matches(r, Parsed(old(input.data), CompoundId, named), input.data)
    decreases |input.data|, 2, 1
  {
    var name :- ParseName(input, named);
    var t :- ReadCompoundPayload(input);
    return Ok(Named(name, t));
  }

  /**
   * The body of parseTagCompound: the first type byte, then a do-while that
   * parses a named tag, stores it under its name (null fails on getName) and
   * reads the next type byte, until that byte is 0.
   */
  method ReadCompoundPayload(input: Input) returns (r: Result<Tag>)
    modifies input`data
    ensures Matches(r, CompoundPayload(old(input.data)), input.data)
    decreases |input.data|, 2, 0
  {
    ghost var s0 := input.data;
    var typeId :- input.ReadByte();
    var aux: map<Str, Slot> := map[];
    while true
      invariant |input.data| < |s0|
      invariant CompoundPayload(s0) == MembersAsCompound(Members(input.data, typeId, aux))
      decreases |input.data|
    {
      var tag :- ParseTagById(input, typeId, true);
      if tag.None? {
        return Err(NullPointer);
      }
      aux := aux[tag.value.name.value := Some(tag.value.tag)];
      var next :- input.ReadByte();
      typeId := next;
      if typeId == 0 {
        return Ok(CompoundTag(aux));
      }
    }
  }

  /** The compound a successful run of the member loop builds. */
  function MembersAsCompound(r: Result<Read<map<Str, Slot>>>): (c: Result<Read<Tag>>)
    ensures c.Ok? <==> r.Ok?
  {
    if r.Err? then Err(r.error) else Ok(Read(CompoundTag(r.value.value), r.value.rest))
  }
}
