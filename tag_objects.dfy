// The tag objects of the package mryurihi.tbnbt.tag
// (src/main/java/mryurihi/tbnbt/tag/): NBTTagList and NBTTagCompound as
// classes whose fields their methods update, their stream methods, and
// NBTTag.newTagByType.  A list's elements and a compound's members are held
// as values (Slot, None for Java's null).  Every stream method is proved to
// write, read and leave behind what module TagSpec describes.
module TagObjects {
  import opened Bytes
  import opened Tags
  import opened Streams
  import TagSpec
  import ParserSpec
  import NBTParser

  /**
   * NBTTag.newTagByType: a fresh object of the kind, filled by its
   * readPayloadBytes; END and unknown kinds give null and read nothing.
   */
  method NewTagByType(kind: int, input: Input) returns (r: Result<Slot>)
    modifies input`data
    ensures Matches(r, TagSpec.NewTagByType(old(input.data), kind), input.data)
    decreases |input.data|, 2, 0
  {
    if kind < ByteId || kind > LongArrayId {
      return Ok(None);
    }
    var t: Tag;
    if kind == ListId {
      var l := new TagList.Unset();
      t :- l.ReadPayloadBytes(input);
    } else if kind == CompoundId {
      var c := new TagCompound.Unset();
      var m := c.ReadPayloadBytes(input);
      return CompoundSlot(m);
    } else if kind == LongArrayId {
      var v :- ReadLongArrayPayload(input);
      t := LongArrayTag(v);
    } else {
      t :- ReadLeaf(kind, input);
    }
    return Ok(Some(t));
  }

  /** The compound a successful readPayloadBytes fills, as newTagByType returns it. */
  function CompoundSlot(r: Result<map<Str, Slot>>): (c: Result<Slot>)
    ensures c.Ok? <==> r.Ok?
  {
    if r.Err? then Err(r.error) else Ok(Some(CompoundTag(r.value)))
  }

  /** readPayloadBytes of the leaf kinds, which read as NBTParser reads an unnamed tag of that kind. */
  method ReadLeaf(kind: int, input: Input) returns (r: Result<Tag>)
    requires ByteId <= kind <= IntArrayId && kind != ListId && kind != CompoundId
    modifies input`data
    ensures Matches(r, ParserSpec.LeafPayload(old(input.data), kind), input.data)
  {
    assert ParserSpec.Parsed(input.data, kind, false) == ParserSpec.WithName(None, ParserSpec.LeafPayload(input.data, kind));
    var n: Named;
    if kind == StringId {
      n :- NBTParser.ParseTagString(input, false);
    } else if kind == ByteArrayId {
      n :- NBTParser.ParseTagByteArray(input, false);
    } else if kind == IntArrayId {
      n :- NBTParser.ParseTagIntArray(input, false);
    } else {
      n :- NBTParser.ParseTagFixed(input, kind, false);
    }
    return Ok(n.tag);
  }

  /** readPayloadBytes of a long array: an int length, then a long[] filled one readLong at a time. */
  method ReadLongArrayPayload(input: Input) returns (r: Result<seq<JLong>>)
    modifies input`data
    ensures Matches(r, TagSpec.LongArrayPayload(old(input.data)), input.data)
  {
    WidthBounds();
    var length :- input.ReadInt();
    if length < 0 {
      return Err(NegativeArraySize);
    }
    r := ReadLongs(input, length);
  }

  /** The loop of readPayloadBytes: n longs, one readLong at a time, into a fresh long[n]. */
  method ReadLongs(input: Input, n: nat) returns (r: Result<seq<JLong>>)
    modifies input`data
    ensures Matches(r, TagSpec.Longs(old(input.data), n), input.data)
  {
    ghost var start := input.data;
    var longs := new JLong[n];
    var i := 0;
    PrefixedLongsNothing(TagSpec.Longs(input.data, n - i));
    assert longs[..i] == [];
    while i < n
      invariant 0 <= i <= n
      invariant TagSpec.Longs(start, n) == PrefixedLongs(longs[..i], TagSpec.Longs(input.data, n - i))
    {
      LongsAt(start, n, i, longs[..i], input.data);
      var v :- input.ReadLong();
      longs[i] := v;
      SliceSnoc(longs[..], i);
      i := i + 1;
    }
    assert longs[..] == longs[..n];
    assert longs[..] + [] == longs[..];
    return Ok(longs[..]);
  }

  /** Long i read from data, in front of the longs read so far. */
  lemma LongsAt(start: seq<Byte>, n: nat, i: nat, got: seq<JLong>, data: seq<Byte>)
    requires i < n && TagSpec.Longs(start, n) == PrefixedLongs(got, TagSpec.Longs(data, n - i))
    ensures ReadSigned(data, 8).Err? ==> TagSpec.Longs(start, n) == Err(EndOfStream)
    ensures ReadSigned(data, 8).Ok? ==>
      TagSpec.Longs(start, n) == PrefixedLongs(got + [ReadSigned(data, 8).value.value], TagSpec.Longs(ReadSigned(data, 8).value.rest, n - (i + 1)))
  {
    WidthBounds();
    LongsStep(data, n - i);
    if ReadSigned(data, 8).Ok? {
      PrefixedLongsTwice(got, [ReadSigned(data, 8).value.value], TagSpec.Longs(ReadSigned(data, 8).value.rest, n - (i + 1)));
    }
  }

  /** The longs pre, followed by those of r, when r succeeds. */
  function PrefixedLongs(pre: seq<JLong>, r: Result<Read<seq<JLong>>>): (p: Result<Read<seq<JLong>>>)
  {
    if r.Err? then r else Ok(Read(pre + r.value.value, r.value.rest))
  }

  lemma PrefixedLongsNothing(r: Result<Read<seq<JLong>>>)
    ensures PrefixedLongs([], r) == r
  {
    if r.Ok? {
      assert [] + r.value.value == r.value.value;
    }
  }

  lemma PrefixedLongsTwice(a: seq<JLong>, b: seq<JLong>, r: Result<Read<seq<JLong>>>)
    ensures PrefixedLongs(a, PrefixedLongs(b, r)) == PrefixedLongs(a + b, r)
  {
    if r.Ok? {
      assert a + (b + r.value.value) == (a + b) + r.value.value;
    }
  }

  lemma LongsStep(s: seq<Byte>, n: nat)
    requires n > 0
    ensures ReadSigned(s, 8).Err? ==> TagSpec.Longs(s, n) == Err(EndOfStream)
    ensures ReadSigned(s, 8).Ok? ==>
      TagSpec.Longs(s, n) == PrefixedLongs([ReadSigned(s, 8).value.value], TagSpec.Longs(ReadSigned(s, 8).value.rest, n - 1))
  {
    WidthBounds();
  }

  /**
   * t.writePayloadBytes(out) for an element held as the value t: an object
   * of its class writes itself; its state afterwards is returned with the
   * exception that stopped it, if any.
   */
  method WriteElement(out: Output, t: Tag) returns (failure: Option<Error>, after: Tag)
    modifies out`written
    ensures out.written == old(out.written) + TagSpec.WriteOut(t).bytes
    ensures failure == TagSpec.WriteOut(t).failure && after == TagSpec.WriteOut(t).after
    decreases t, 2
  {
    if t.ListTag? {
      var l := new TagList.Copy(Some(t.elems), t.elemType);
      failure := l.WritePayloadBytes(out);
      after := l.AsTag();
    } else if t.CompoundTag? {
      var c := new TagCompound(Some(t.members));
      c.WritePayloadBytes(out);
      failure, after := None, c.AsTag();
    } else {
      out.Write(TagSpec.LeafBytes(t));
      failure, after := None, t;
    }
  }

  /**
   * The element loop of NBTTagList.writePayloadBytes: each element writes
   * itself, in order, until a null element or a failing write stops it;
   * afters are the elements as the loop leaves them.
   */
  method WriteElemsOut(out: Output, t: Tag) returns (failure: Option<Error>, afters: seq<Slot>)
    requires t.ListTag?
    modifies out`written
    ensures
      var w := TagSpec.WriteElems(t, 0);
      out.written == old(out.written) + w.bytes && failure == w.failure && afters == w.after
    decreases t, 0
  {
    ghost var written0 := out.written;
    ghost var wb: seq<Byte> := [];
    afters := [];
    ThenNothing(TagSpec.WriteElems(t, 0));
    var i := 0;
    while i < |t.elems|
      invariant 0 <= i <= |t.elems| && |afters| == i
      invariant out.written == written0 + wb
      invariant TagSpec.WriteElems(t, 0) == Then(wb, afters, TagSpec.WriteElems(t, i))
    {
      if t.elems[i].None? {
        WriteElemsNull(t, i);
        ThenLast(wb, afters, Some(NullPointer), t.elems[i..]);
        return Some(NullPointer), afters + t.elems[i..];
      }
      var f, after := WriteElement(out, t.elems[i].value);
      ghost var e := TagSpec.WriteOut(t.elems[i].value);
      ConcatAssoc(written0, wb, e.bytes);
      if f.Some? {
        WriteElemsFail(t, i);
        return f, afters + ([Some(after)] + t.elems[i + 1..]);
      }
      WriteElemsStep(t, i);
      ThenTwice(wb, afters, e.bytes, [Some(after)], TagSpec.WriteElems(t, i + 1));
      wb := wb + e.bytes;
      afters := afters + [Some(after)];
      i := i + 1;
    }
    WriteElemsEnd(t);
    ThenLast(wb, afters, None, []);
    assert afters + [] == afters;
    return None, afters;
  }

  /** A null element stops the list loop before it writes anything. */
  lemma WriteElemsNull(t: Tag, i: nat)
    requires t.ListTag? && i < |t.elems| && t.elems[i].None?
    ensures TagSpec.WriteElems(t, i) == TagSpec.Written([], Some(NullPointer), t.elems[i..])
  {
  }

  /** An element whose write fails stops the list loop after its bytes; the later elements stay as they were. */
  lemma WriteElemsFail(t: Tag, i: nat)
    requires t.ListTag? && i < |t.elems| && t.elems[i].Some?
    requires TagSpec.WriteOut(t.elems[i].value).failure.Some?
    ensures
      var e := TagSpec.WriteOut(t.elems[i].value);
      TagSpec.WriteElems(t, i) == TagSpec.Written(e.bytes, e.failure, [Some(e.after)] + t.elems[i + 1..])
  {
  }

  /** The list loop past the last element writes nothing. */
  lemma WriteElemsEnd(t: Tag)
    requires t.ListTag?
    ensures TagSpec.WriteElems(t, |t.elems|) == TagSpec.Written([], None, [])
  {
  }

  /** The bytes and element states of the list loop so far, in front of what the rest of the loop does. */
  function Then(bytes: seq<Byte>, afters: seq<Slot>, w: TagSpec.Written<seq<Slot>>): (r: TagSpec.Written<seq<Slot>>)
  {
    TagSpec.Written(bytes + w.bytes, w.failure, afters + w.after)
  }

  lemma ThenNothing(w: TagSpec.Written<seq<Slot>>)
    ensures Then([], [], w) == w
  {
    assert [] + w.bytes == w.bytes && [] + w.after == w.after;
  }

  lemma ThenLast(a: seq<Byte>, x: seq<Slot>, f: Option<Error>, tail: seq<Slot>)
    ensures Then(a, x, TagSpec.Written([], f, tail)) == TagSpec.Written(a, f, x + tail)
  {
    assert a + [] == a;
  }

  lemma ThenTwice(a: seq<Byte>, x: seq<Slot>, b: seq<Byte>, y: seq<Slot>, w: TagSpec.Written<seq<Slot>>)
    ensures Then(a, x, Then(b, y, w)) == Then(a + b, x + y, w)
  {
    ConcatAssoc(a, b, w.bytes);
    ConcatAssoc(x, y, w.after);
  }

  /** One element of the list loop, written without failure, in front of the rest of the loop. */
  lemma WriteElemsStep(t: Tag, i: nat)
    requires t.ListTag? && i < |t.elems| && t.elems[i].Some?
    requires TagSpec.WriteOut(t.elems[i].value).failure.None?
    ensures
      var e := TagSpec.WriteOut(t.elems[i].value);
      TagSpec.WriteElems(t, i) == Then(e.bytes, [Some(e.after)], TagSpec.WriteElems(t, i + 1))
  {
  }

  /** java.util.HashMap's copy loop: each entry of m put into a fresh map, in an order the model leaves open. */
  method CopyEntries(m: map<Str, Slot>) returns (aux: map<Str, Slot>)
    ensures aux == m
  {
    aux := map[];
    var remaining := m.Keys;
    while remaining != {}
      invariant remaining <= m.Keys && aux.Keys == m.Keys - remaining
      invariant forall k :: k in aux ==> aux[k] == m[k]
      decreases remaining
    {
      var k :| k in remaining;
      aux := aux[k := m[k]];
      remaining := remaining - {k};
    }
  }

  /** The loop of NBTTagList.readPayloadBytes: n results of newTagByType of the kind, in order. */
  method ReadElements(input: Input, kind: int, n: nat) returns (r: Result<seq<Slot>>)
    modifies input`data
    ensures Matches(r, TagSpec.Elements(old(input.data), kind, n), input.data)
    decreases |input.data|, 3, n
  {
    ghost var start := input.data;
    var elems: seq<Slot> := [];
    var i := 0;
    ParserSpec.PrefixedNothing(TagSpec.Elements(start, kind, n));
    while i < n
      invariant 0 <= i <= n && |input.data| <= |start|
      invariant TagSpec.Elements(start, kind, n) == ParserSpec.Prefixed(elems, TagSpec.Elements(input.data, kind, n - i))
    {
      ghost var before := input.data;
      var e :- NewTagByType(kind, input);
      assert TagSpec.Elements(before, kind, n - i) == ParserSpec.Prefixed([e], TagSpec.Elements(input.data, kind, n - i - 1));
      ParserSpec.PrefixedTwice(elems, [e], TagSpec.Elements(input.data, kind, n - i - 1));
      elems := elems + [e];
      i := i + 1;
    }
    assert TagSpec.Elements(input.data, kind, 0) == Ok(Read([], input.data));
    assert elems + [] == elems;
    return Ok(elems);
  }

  /** NBTTagList: a list of elements and the kind they are meant to have. */
  class TagList {
    var value: seq<Slot>
    var typeId: int

    /** The list as a tag value. */
    function AsTag(): (t: Tag)
      reads this
    {
      ListTag(typeId, value)
    }

    /** NBTTagList(List, TagType): the elements of the argument copied in order, unchecked (none for null). */
    constructor Copy(elems: Option<seq<Slot>>, typeId: int)
      ensures value == (if elems.None? then [] else elems.value) && this.typeId == typeId
    {
      var aux: seq<Slot> := [];
      if elems.Some? {
        for i := 0 to |elems.value|
          invariant aux == elems.value[..i]
        {
          aux := aux + [elems.value[i]];
        }
        assert elems.value[..|elems.value|] == elems.value;
      }
      value := aux;
      this.typeId := typeId;
    }

    /** NBTTagList(TagType): an empty list of the kind. */
    constructor OfType(typeId: int)
      ensures value == [] && this.typeId == typeId
    {
      value := [];
      this.typeId := typeId;
    }

    /** The package-private NBTTagList(): both fields are set by readPayloadBytes before any use. */
    constructor Unset()
      ensures value == [] && typeId == EndId
    {
      value := [];
      typeId := EndId;
    }

    /**
     * NBTTagList(List): the list itself and the kind of its first element; a
     * null or empty list throws IllegalArgumentException, a null first
     * element NullPointerException.
     */
    static method FromList(elems: Option<seq<Slot>>) returns (r: Result<TagList>)
      ensures r.Ok? <==> elems.Some? && elems.value != [] && elems.value[0].Some?
      ensures elems.None? || elems.value == [] ==> r == Err(IllegalArgument)
      ensures elems.Some? && elems.value != [] && elems.value[0].None? ==> r == Err(NullPointer)
      ensures r.Ok? ==> fresh(r.value) && r.value.value == elems.value && r.value.typeId == KindId(elems.value[0].value)
    {
      if elems.None? || elems.value == [] {
        return Err(IllegalArgument);
      }
      if elems.value[0].None? {
        return Err(NullPointer);
      }
      var l := new TagList.Unset();
      l.value := elems.value;
      l.typeId := KindId(elems.value[0].value);
      return Ok(l);
    }

    /** NBTTagList.get: the element at the index; ArrayList throws outside 0..size-1. */
    function Get(index: int): (r: Result<Slot>)
      reads this
      ensures r.Ok? <==> 0 <= index < |value|
      ensures r.Ok? ==> r.value == value[index]
      ensures r.Err? ==> r.error == IndexOutOfBounds
    {
      if 0 <= index < |value| then Ok(value[index]) else Err(IndexOutOfBounds)
    }

    /** NBTTagList.setValue: the elements replaced wholesale, unchecked against typeId. */
    method SetValue(elems: seq<Slot>)
      modifies this`value
      ensures value == elems && typeId == old(typeId)
    {
      value := elems;
    }

    /** NBTTagList.setTypeId: the kind replaced, the elements kept unchecked; returns the receiver. */
    method SetTypeId(typeId: int) returns (self: TagList)
      modifies this`typeId
      ensures this.typeId == typeId && value == old(value) && self == this
    {
      this.typeId := typeId;
      return this;
    }

    /** NBTTagList.add: appends exactly when the tag's kind is the list's; otherwise throws and changes nothing. */
    method Add(tag: Slot) returns (r: Result<()>)
      modifies this`value
      ensures r.Ok? <==> tag.Some? && KindId(tag.value) == typeId
      ensures tag.None? ==> r == Err(NullPointer)
      ensures tag.Some? && KindId(tag.value) != typeId ==> r == Err(IllegalArgument)
      ensures value == if r.Ok? then old(value) + [tag] else old(value)
    {
      if tag.None? {
        return Err(NullPointer);
      }
      if KindId(tag.value) != typeId {
        return Err(IllegalArgument);
      }
      value := value + [tag];
      return Ok(());
    }

    /** NBTTagList.add(int, NBTTag): as add, inserting at the index, which ArrayList requires in 0..size. */
    method AddAt(index: int, tag: Slot) returns (r: Result<()>)
      modifies this`value
      ensures r.Ok? <==> tag.Some? && KindId(tag.value) == typeId && 0 <= index <= |old(value)|
      ensures tag.None? ==> r == Err(NullPointer)
      ensures tag.Some? && KindId(tag.value) != typeId ==> r == Err(IllegalArgument)
      ensures tag.Some? && KindId(tag.value) == typeId && !(0 <= index <= |old(value)|) ==> r == Err(IndexOutOfBounds)
      ensures r.Ok? ==> value == old(value)[..index] + [tag] + old(value)[index..]
      ensures r.Err? ==> value == old(value)
    {
      if tag.None? {
        return Err(NullPointer);
      }
      if KindId(tag.value) != typeId {
        return Err(IllegalArgument);
      }
      if index < 0 || index > |value| {
        return Err(IndexOutOfBounds);
      }
      value := value[..index] + [tag] + value[index..];
      return Ok(());
    }

    /** NBTTagList.remove(int): exactly that element goes and the others keep their order. */
    method RemoveAt(index: int) returns (r: Result<()>)
      modifies this`value
      ensures r.Ok? <==> 0 <= index < |old(value)|
      ensures r.Err? ==> r.error == IndexOutOfBounds && value == old(value)
      ensures r.Ok? ==> |value| == |old(value)| - 1
      ensures r.Ok? ==> forall i :: 0 <= i < index ==> value[i] == old(value)[i]
      ensures r.Ok? ==> forall i :: index <= i < |value| ==> value[i] == old(value)[i + 1]
    {
      if index < 0 || index >= |value| {
        return Err(IndexOutOfBounds);
      }
      value := value[..index] + value[index + 1..];
      return Ok(());
    }

    /**
     * NBTTagList.set: a list of kind END first adopts the tag's kind, so the
     * kind check cannot fail for it; otherwise a mismatch throws.  The index
     * is checked last, after the adoption.
     */
    method Set(index: int, tag: Slot) returns (r: Result<()>)
      modifies this`value, this`typeId
      ensures tag.None? ==> r == Err(NullPointer) && typeId == old(typeId)
      ensures tag.Some? ==> typeId == if old(typeId) == EndId then KindId(tag.value) else old(typeId)
      ensures r.Ok? <==> tag.Some? && KindId(tag.value) == typeId && 0 <= index < |old(value)|
      ensures tag.Some? && KindId(tag.value) != typeId ==> r == Err(IllegalArgument)
      ensures tag.Some? && KindId(tag.value) == typeId && !(0 <= index < |old(value)|) ==> r == Err(IndexOutOfBounds)
      ensures old(typeId) == EndId && tag.Some? ==> r.Ok? || r == Err(IndexOutOfBounds)
      ensures value == if r.Ok? then old(value)[index := tag] else old(value)
    {
      if tag.None? {
        return Err(NullPointer);
      }
      if typeId == EndId {
        typeId := KindId(tag.value);
      }
      if KindId(tag.value) != typeId {
        return Err(IllegalArgument);
      }
      if index < 0 || index >= |value| {
        return Err(IndexOutOfBounds);
      }
      value := value[index := tag];
      return Ok(());
    }

    /**
     * NBTTagList.writePayloadBytes: the kind id byte, the size, then each
     * element's writePayloadBytes (WriteElemsOut); the elements are left as
     * their writes leave them (a compound element is emptied).
     */
    method WritePayloadBytes(out: Output) returns (failure: Option<Error>)
      modifies this`value, out`written
      ensures
        var w := TagSpec.WriteOut(old(AsTag()));
        out.written == old(out.written) + w.bytes && failure == w.failure && AsTag() == w.after
      decreases ListTag(typeId, value), 1
    {
      ghost var written0 := out.written;
      out.WriteSigned(typeId, 1);
      out.WriteSigned(|value|, 4);
      ghost var header := EncodeSigned(typeId, 1) + IntBytes(|value|);
      var afters;
      failure, afters := WriteElemsOut(out, AsTag());
      ConcatAssoc(written0, header, TagSpec.WriteElems(AsTag(), 0).bytes);
      value := afters;
    }

    /**
     * NBTTagList.readPayloadBytes: the element id byte, an int count, the kind
     * of that id, then count results of newTagByType of that kind; returns
     * the list it has filled.
     */
    method ReadPayloadBytes(input: Input) returns (r: Result<Tag>)
      modifies this`value, this`typeId, input`data
      ensures Matches(r, TagSpec.ListRead(old(input.data)), input.data)
      ensures r.Ok? ==> r.value == AsTag()
      decreases |input.data|, 1, 0
    {
      value := [];
      var id :- input.ReadByte();
      var length :- input.ReadInt();
      var kind :- TagSpec.TypeById(id);
      typeId := kind;
      value :- ReadElements(input, kind, if length < 0 then 0 else length);
      return Ok(AsTag());
    }
  }

  /** NBTTagCompound: a map from names to tags, or no map at all (the package-private constructor). */
  class TagCompound {
    var value: Option<map<Str, Slot>>

    /** The compound as a tag value. */
    function AsTag(): (t: Tag)
      reads this
      requires value.Some?
    {
      CompoundTag(value.value)
    }

    /** NBTTagCompound(Map): a fresh map holding the argument's entries (none for null). */
    constructor (m: Option<map<Str, Slot>>)
      ensures value == Some(if m.None? then map[] else m.value)
    {
      var aux: map<Str, Slot> := map[];
      if m.Some? {
        aux := CopyEntries(m.value);
      }
      value := Some(aux);
    }

    /** The package-private NBTTagCompound(): no map. */
    constructor Unset()
      ensures value.None?
    {
      value := None;
    }

    /** NBTTagCompound.get: the member under the key, null when there is none; no map throws. */
    function Get(key: Str): (r: Result<Slot>)
      reads this
      ensures r.Ok? <==> value.Some?
      ensures r.Err? ==> r.error == NullPointer
      ensures r.Ok? && key !in value.value ==> r.value.None?
    {
      if value.None? then Err(NullPointer)
      else if key in value.value then Ok(value.value[key])
      else Ok(None)
    }

    /** NBTTagCompound.setValue: the contents become a copy of the argument; null throws and changes nothing. */
    method SetValue(m: Option<map<Str, Slot>>) returns (r: Result<()>)
      modifies this`value
      ensures r.Ok? <==> m.Some?
      ensures r.Err? ==> r.error == NullPointer && value == old(value)
      ensures r.Ok? ==> value == Some(m.value)
    {
      if m.None? {
        return Err(NullPointer);
      }
      var aux := CopyEntries(m.value);
      value := Some(aux);
      return Ok(());
    }

    /** NBTTagCompound.put: afterwards get(key) is the tag and every other key is as before. */
    method Put(key: Str, tag: Slot) returns (r: Result<()>)
      modifies this`value
      ensures r.Ok? <==> old(value).Some?
      ensures r.Err? ==> r.error == NullPointer && value == old(value)
      ensures r.Ok? ==> Get(key) == Ok(tag) && value.value.Keys == old(value).value.Keys + {key}
      ensures r.Ok? ==> forall k :: k != key ==> Get(k) == old(Get(k))
    {
      if value.None? {
        return Err(NullPointer);
      }
      value := Some(value.value[key := tag]);
      return Ok(());
    }

    /** NBTTagCompound.remove: only the key goes. */
    method Remove(key: Str) returns (r: Result<()>)
      modifies this`value
      ensures r.Ok? <==> old(value).Some?
      ensures r.Err? ==> r.error == NullPointer && value == old(value)
      ensures r.Ok? ==> Get(key) == Ok(None) && value.value.Keys == old(value).value.Keys - {key}
      ensures r.Ok? ==> forall k :: k != key ==> Get(k) == old(Get(k))
    {
      if value.None? {
        return Err(NullPointer);
      }
      value := Some(value.value - {key});
      return Ok(());
    }

    /**
     * NBTTagCompound.writePayloadBytes: the map is replaced by an empty one
     * before the member loop, which therefore writes nothing; then the
     * closing 0.  Whatever the compound held, the output is one 0 byte and
     * the compound is left empty.
     */
    method WritePayloadBytes(out: Output)
      modifies this`value, out`written
      ensures value == Some(map[])
      ensures out.written == old(out.written) + [0]
      ensures forall m :: out.written == old(out.written) + TagSpec.WriteOut(CompoundTag(m)).bytes
    {
      value := Some(map[]);
      out.WriteSigned(0, 1);
      assert EncodeSigned(0, 1) == [0] by {
        SmallByteEncoding(0);
      }
    }

    /**
     * NBTTagCompound.readPayloadBytes: a do-while that reads a type byte, a
     * String payload as the name and a tag of that type, and puts it, until
     * the pass whose type byte was 0.  Returns the map it has filled.
     */
    method ReadPayloadBytes(input: Input) returns (r: Result<map<Str, Slot>>)
      modifies this`value, input`data
      ensures Matches(r, TagSpec.Members(old(input.data), old(value)), input.data)
      ensures r.Ok? ==> value == Some(r.value)
      decreases |input.data|, 1, 0
    {
      ghost var s0 := input.data;
      while true
        invariant |input.data| <= |s0|
        invariant TagSpec.Members(s0, old(value)) == TagSpec.Members(input.data, value)
        decreases |input.data|
      {
        var typ :- input.ReadByte();
        var name :- NBTParser.ReadStringPayload(input);
        var kind :- TagSpec.TypeById(typ);
        var child :- NewTagByType(kind, input);
        if value.None? {
          return Err(NullPointer);
        }
        value := Some(value.value[name := child]);
        if typ == 0 {
          return Ok(value.value);
        }
      }
    }
  }
}
