// The tag objects of the root package (src/main/java/mryurihi/tbnbt/) and
// its NBTOutputStream.  NBTTag is one class: its name field, and the kind
// and value of the subclass the object belongs to, held as a Tag value.  A
// list's elements and a compound's members are held as values too; Java
// holds them as objects whose name fields add and put overwrite (list
// elements are unnamed, a member is named by its key), which is what the
// encoder of RootCodec assumes.
module RootTags {
  import opened Bytes
  import opened Tags
  import opened RootCodec
  import RootPayload
  import KeyOrder
  import ParserSpec
  import RootRoundTrip
  import Streams

  /** The non-null objects among the values of a Java map. */
  function Entries(value: map<Str, NBTTag?>): (r: set<NBTTag>)
    ensures forall k :: k in value && value[k] != null ==> value[k] in r
  {
    set k | k in value && value[k] != null :: value[k]
  }

  /** The object carries, as its name, one of the keys the map stores it under. */
  ghost predicate NamedIn(value: map<Str, NBTTag?>, o: NBTTag)
    reads o
  {
    o.name.Some? && o.name.value in value && value[o.name.value] == o
  }

  /** Every object of the map carries, as its name, one of the keys it is stored under. */
  ghost predicate NamedByKeys(value: map<Str, NBTTag?>)
    reads Entries(value)
  {
    forall k :: k in value && value[k] != null ==> NamedIn(value, value[k])
  }

  /** The members a compound holds once the map's objects are stored: their values, null as None. */
  function Snapshot(value: map<Str, NBTTag?>): (r: map<Str, Slot>)
    reads Entries(value)
    ensures r.Keys == value.Keys
  {
    map k | k in value :: if value[k] == null then None else Some(value[k].tag)
  }

  /** The kind a list holds after add: its own, or the new element's when it had none yet (typeId 0). */
  function Adopted(typeId: int, child: Tag): (r: int)
    ensures typeId != 0 ==> r == typeId
    ensures typeId == 0 ==> r == KindId(child)
  {
    if typeId == 0 then KindId(child) else typeId
  }

  /** Every element of the list is present and of the list's kind; with kind 0 the list is empty. */
  predicate Homogeneous(t: Tag)
    requires t.ListTag?
  {
    forall i :: 0 <= i < |t.elems| ==> t.elems[i].Some? && KindId(t.elems[i].value) == t.elemType
  }

  /**
   * For each entry of the map, in an order the model leaves open: v.setName(k), then the
   * entry into a fresh map (the loops of NBTTagCompound's constructor and of
   * setValue).  A null value fails on setName.
   */
  method RenameAll(value: map<Str, NBTTag?>) returns (r: Result<map<Str, Slot>>)
    modifies Entries(value)`name
    ensures r.Ok? <==> forall k :: k in value ==> value[k] != null
    ensures r.Err? ==> r.error == NullPointer
    ensures r.Ok? ==> r.value == Snapshot(value) && NamedByKeys(value)
  {
    var remaining := value.Keys;
    var m: map<Str, Slot> := map[];
    while remaining != {}
      invariant remaining <= value.Keys && m.Keys == value.Keys - remaining
      invariant forall k :: k in m ==> value[k] != null && m[k] == Some(value[k].tag)
      invariant forall k :: k in m ==> NamedIn(value, value[k])
      decreases remaining
    {
      var k :| k in remaining;
      var v := value[k];
      if v == null {
        return Err(NullPointer);
      }
      v.name := Some(k);
      m := m[k := Some(v.tag)];
      remaining := remaining - {k};
    }
    return Ok(m);
  }

  class NBTTag {
    /** The name field: null until setName, a compound's key, or writeTag's name. */
    var name: Option<Str>
    /** The subclass and the values of its fields. */
    var tag: Tag
    /**
     * The value field is null: a list built by NBTTagList(List, int) from
     * null or an empty list (its value field is never allocated), or a byte
     * or int array given null by its constructor or setValue.
     */
    var valueNull: bool

    /**
     * The constructors that store their argument: NBTTagShort(short),
     * NBTTagByteArray(byte[]), NBTTagIntArray(int[]) and those of the leaf
     * classes not part of this model; the name starts out null.
     */
    constructor (t: Tag)
      ensures name == None && tag == t && !valueNull
    {
      name := None;
      tag := t;
      valueNull := false;
    }

    /** NBTTagByteArray(byte[]) and NBTTagIntArray(int[]) given null: the value field stays null. */
    constructor NullArray(kind: int)
      requires kind == 7 || kind == 11
      ensures name == None && valueNull && KindId(tag) == kind
      ensures tag == if kind == 7 then ByteArrayTag([]) else IntArrayTag([])
    {
      name := None;
      tag := if kind == 7 then ByteArrayTag([]) else IntArrayTag([]);
      valueNull := true;
    }

    /**
     * NBTTagString(String): a null value throws NullPointerException at its
     * length() call; more than Short.MAX_VALUE characters are refused; nothing
     * is stored either way.
     */
    static method NewString(value: Option<Str>) returns (r: Result<NBTTag>)
      ensures r.Ok? <==> value.Some? && JavaLength(value.value) <= ShortMax
      ensures r.Err? ==> r.error == if value.None? then NullPointer else IllegalArgument
      ensures r.Ok? ==> fresh(r.value) && r.value.name == None && r.value.tag == StringTag(value.value) && !r.value.valueNull
    {
      if value.None? {
        return Err(NullPointer);
      }
      if JavaLength(value.value) > ShortMax {
        return Err(IllegalArgument);
      }
      var t := new NBTTag(StringTag(value.value));
      return Ok(t);
    }

    /**
     * NBTTagList(List<NBTTag>, int): the loop clears the first tag's name and
     * then adds it to the unallocated value field, so any non-empty list fails;
     * null or an empty list leave the field null and set typeId.
     */
    static method NewTypedList(value: Option<seq<NBTTag?>>, typeId: JInt) returns (r: Result<NBTTag>)
      modifies if value.Some? && |value.value| > 0 && value.value[0] != null then {value.value[0]} else {}
      ensures (value.Some? && |value.value| > 0) <==> r.Err?
      ensures r.Err? ==> r.error == NullPointer
      ensures r.Err? && value.value[0] != null ==> value.value[0].name == None
      ensures r.Ok? ==> fresh(r.value) && r.value.valueNull && r.value.name == None && r.value.tag == ListTag(typeId, [])
    {
      if value.Some? && |value.value| > 0 {
        var first := value.value[0];
        if first != null {
          first.name := None;
        }
        return Err(NullPointer);
      }
      var t := new NBTTag(ListTag(typeId, []));
      t.valueNull := true;
      return Ok(t);
    }

    /**
     * NBTTagList(List<NBTTag>): keeps the given list as its value and leaves
     * typeId 0 (unset); null leaves the value field null.
     */
    static method NewList(value: Option<seq<Slot>>) returns (r: NBTTag)
      ensures fresh(r) && r.name == None && r.valueNull == value.None?
      ensures r.tag == ListTag(0, if value.None? then [] else value.value)
    {
      r := new NBTTag(ListTag(0, if value.None? then [] else value.value));
      r.valueNull := value.None?;
    }

    /** NBTTagCompound(Map): a fresh map with every entry's tag renamed to its key; null gives an empty compound. */
    static method NewCompound(value: Option<map<Str, NBTTag?>>) returns (r: Result<NBTTag>)
      modifies if value.Some? then Entries(value.value) else {}
      ensures r.Ok? <==> value.None? || forall k :: k in value.value ==> value.value[k] != null
      ensures r.Err? ==> r.error == NullPointer
      ensures r.Ok? && value.None? ==> r.value.tag == CompoundTag(map[])
      ensures r.Ok? && value.Some? ==> r.value.tag == CompoundTag(Snapshot(value.value)) && NamedByKeys(value.value)
      ensures r.Ok? ==> fresh(r.value) && r.value.name == None && !r.value.valueNull
    {
      var m: map<Str, Slot> := map[];
      if value.Some? {
        m :- RenameAll(value.value);
      }
      var t := new NBTTag(CompoundTag(m));
      return Ok(t);
    }

    /** setName: stores the name and returns the receiver. */
    method SetName(n: Option<Str>) returns (self: NBTTag)
      modifies this`name
      ensures name == n && self == this
    {
      name := n;
      return this;
    }

    /** getAsTagByte, getAsTagShort, ...: Class.cast of the receiver to the class of the given kind. */
    function GetAs(kind: int): (r: Result<NBTTag>)
      reads this
      ensures r.Ok? <==> kind == KindId(tag)
      ensures r.Ok? ==> r.value == this
      ensures r.Err? ==> r.error == ClassCast
    {
      if CastTo(tag, kind).Ok? then Ok(this) else Err(ClassCast)
    }

    /** getPayloadBytes of the object, whatever its class. */
    method GetPayloadBytes() returns (r: Result<seq<Byte>>)
      ensures valueNull ==> r == Err(NullPointer)
      ensures !valueNull ==> r == Encoded(tag, name)
    {
      if valueNull {
        return Err(NullPointer);
      }
      r := RootPayload.PayloadBytes(tag, name);
    }

    /**
     * NBTTagString.setValue: the same checks as the constructor, null first;
     * a refused value leaves the old one.
     */
    method SetStringValue(value: Option<Str>) returns (r: Result<()>)
      requires tag.StringTag?
      modifies this`tag
      ensures value.None? ==> r == Err(NullPointer) && tag == old(tag)
      ensures value.Some? && JavaLength(value.value) > ShortMax ==> r == Err(IllegalArgument) && tag == old(tag)
      ensures value.Some? && JavaLength(value.value) <= ShortMax ==> r == Ok(()) && tag == StringTag(value.value)
    {
      if value.None? {
        return Err(NullPointer);
      }
      if JavaLength(value.value) > ShortMax {
        return Err(IllegalArgument);
      }
      tag := StringTag(value.value);
      return Ok(());
    }

    /**
     * setValue of NBTTagShort, NBTTagByteArray and NBTTagIntArray: the field
     * replaced wholesale, so an array that was null is null no longer.
     */
    method SetValue(value: Tag)
      requires (tag.ShortTag? && value.ShortTag?) || (tag.ByteArrayTag? && value.ByteArrayTag?) || (tag.IntArrayTag? && value.IntArrayTag?)
      modifies this`tag, this`valueNull
      ensures tag == value && name == old(name) && !valueNull
    {
      tag := value;
      valueNull := false;
    }

    /** setValue(null) of NBTTagByteArray and NBTTagIntArray: the field becomes null, the kind stays. */
    method SetValueNull()
      requires tag.ByteArrayTag? || tag.IntArrayTag?
      modifies this`valueNull
      ensures valueNull && tag == old(tag) && name == old(name)
    {
      valueNull := true;
    }

    /** NBTTagList.setValue: the list replaced wholesale, null included; typeId is kept. */
    method SetListValue(value: Option<seq<Slot>>)
      requires tag.ListTag?
      modifies this`tag, this`valueNull
      ensures valueNull == value.None? && name == old(name)
      ensures tag == ListTag(old(tag.elemType), if value.None? then [] else value.value)
    {
      tag := ListTag(tag.elemType, if value.None? then [] else value.value);
      valueNull := value.None?;
    }

    /** NBTTagList.setTypeId: the element kind replaced and the elements kept, unchecked. */
    method SetTypeId(typeId: JInt)
      requires tag.ListTag?
      modifies this`tag
      ensures tag == ListTag(typeId, old(tag.elems)) && valueNull == old(valueNull)
    {
      tag := ListTag(typeId, tag.elems);
    }

    /**
     * NBTTagList.add: clears the tag's name, adopts its kind when typeId is 0,
     * then appends it when the kinds agree and throws otherwise.
     */
    method Add(child: NBTTag?) returns (r: Result<()>)
      requires tag.ListTag?
      modifies this`tag, child
      ensures tag.ListTag?
      ensures child == null ==> r == Err(NullPointer) && tag == old(tag)
      ensures child != null ==> child.name == None && child.valueNull == old(child.valueNull)
      ensures child != null && child != this ==> child.tag == old(child.tag)
      ensures child != null ==>
        var id := Adopted(old(tag.elemType), old(child.tag));
        && (r.Ok? <==> KindId(old(child.tag)) == id && !valueNull)
        && (r.Err? ==> r.error == if KindId(old(child.tag)) != id then IllegalArgument else NullPointer)
        && tag == ListTag(id, if r.Ok? then old(tag.elems) + [Some(old(child.tag))] else old(tag.elems))
      ensures old(Homogeneous(tag)) ==> Homogeneous(tag)
    {
      if child == null {
        return Err(NullPointer);
      }
      var added := child.tag;
      child.name := None;
      if tag.elemType == 0 {
        tag := ListTag(KindId(added), tag.elems);
      }
      if KindId(added) != tag.elemType {
        return Err(IllegalArgument);
      }
      if valueNull {
        return Err(NullPointer);
      }
      tag := ListTag(tag.elemType, tag.elems + [Some(added)]);
      return Ok(());
    }

    /** NBTTagList.add(int, NBTTag): as add, but inserting at the index, which must lie in 0..size. */
    method AddAt(index: int, child: NBTTag?) returns (r: Result<()>)
      requires tag.ListTag?
      modifies this`tag, child
      ensures tag.ListTag?
      ensures child == null ==> r == Err(NullPointer) && tag == old(tag)
      ensures child != null ==> child.name == None && child.valueNull == old(child.valueNull)
      ensures child != null && child != this ==> child.tag == old(child.tag)
      ensures child != null ==>
        var id := Adopted(old(tag.elemType), old(child.tag));
        var elems := old(tag.elems);
        && (r.Ok? <==> KindId(old(child.tag)) == id && !valueNull && 0 <= index <= |elems|)
        && (r.Err? && KindId(old(child.tag)) != id ==> r.error == IllegalArgument)
        && (r.Err? && KindId(old(child.tag)) == id && valueNull ==> r.error == NullPointer)
        && (r.Err? && KindId(old(child.tag)) == id && !valueNull ==> r.error == IndexOutOfBounds)
        && (r.Ok? ==> tag == ListTag(id, elems[..index] + [Some(old(child.tag))] + elems[index..]))
        && (r.Err? ==> tag == ListTag(id, elems))
      ensures old(Homogeneous(tag)) ==> Homogeneous(tag)
    {
      if child == null {
        return Err(NullPointer);
      }
      var added := child.tag;
      child.name := None;
      if tag.elemType == 0 {
        tag := ListTag(KindId(added), tag.elems);
      }
      if KindId(added) != tag.elemType {
        return Err(IllegalArgument);
      }
      if valueNull {
        return Err(NullPointer);
      }
      if index < 0 || index > |tag.elems| {
        return Err(IndexOutOfBounds);
      }
      tag := ListTag(tag.elemType, tag.elems[..index] + [Some(added)] + tag.elems[index..]);
      return Ok(());
    }

    /** NBTTagList.remove(int): exactly that element goes, the others keep their order. */
    method RemoveAt(index: int) returns (r: Result<()>)
      requires tag.ListTag?
      modifies this`tag
      ensures tag.ListTag?
      ensures r.Ok? <==> !valueNull && 0 <= index < |old(tag.elems)|
      ensures r.Err? ==> r.error == if valueNull then NullPointer else IndexOutOfBounds
      ensures r.Err? ==> tag == old(tag)
      ensures r.Ok? ==> tag.elemType == old(tag.elemType) && |tag.elems| == |old(tag.elems)| - 1
      ensures r.Ok? ==> forall i :: 0 <= i < index ==> tag.elems[i] == old(tag.elems[i])
      ensures r.Ok? ==> forall i :: index <= i < |tag.elems| ==> tag.elems[i] == old(tag.elems[i + 1])
      ensures old(Homogeneous(tag)) ==> Homogeneous(tag)
    {
      if valueNull {
        return Err(NullPointer);
      }
      if index < 0 || index >= |tag.elems| {
        return Err(IndexOutOfBounds);
      }
      tag := ListTag(tag.elemType, tag.elems[..index] + tag.elems[index + 1..]);
      return Ok(());
    }

    /** NBTTagCompound.get: the member under the key, null when there is none. */
    function Get(key: Str): (r: Slot)
      reads this
      requires tag.CompoundTag?
      ensures key !in tag.members ==> r.None?
    {
      if key in tag.members then tag.members[key] else None
    }

    /** NBTTagCompound.put: names the tag by its key and stores it, replacing any earlier entry; returns the receiver. */
    method Put(key: Str, child: NBTTag?) returns (r: Result<NBTTag>)
      requires tag.CompoundTag?
      modifies this`tag, child
      ensures child == null ==> r == Err(NullPointer) && tag == old(tag)
      ensures child != null ==> r == Ok(this) && child.name == Some(key) && child.valueNull == old(child.valueNull)
      ensures child != null && child != this ==> child.tag == old(child.tag)
      ensures child != null ==> tag.CompoundTag? && Get(key) == Some(old(child.tag))
      ensures child != null ==> forall k :: k != key ==> Get(k) == old(Get(k))
      ensures child != null ==> tag.members.Keys == old(tag.members.Keys) + {key}
    {
      if child == null {
        return Err(NullPointer);
      }
      var stored := child.tag;
      child.name := Some(key);
      tag := CompoundTag(tag.members[key := Some(stored)]);
      return Ok(this);
    }

    /** NBTTagCompound.remove: drops the key and nothing else; returns the receiver. */
    method RemoveKey(key: Str) returns (self: NBTTag)
      requires tag.CompoundTag?
      modifies this`tag
      ensures self == this && tag.CompoundTag?
      ensures Get(key) == None && tag.members.Keys == old(tag.members.Keys) - {key}
      ensures forall k :: k != key ==> Get(k) == old(Get(k))
    {
      tag := CompoundTag(tag.members - {key});
      return this;
    }

    /**
     * NBTTagCompound.setValue: the entries renamed to their keys into a fresh
     * map that replaces the contents; null fails before anything changes, a
     * null entry fails after renaming some and leaves the contents.
     */
    method SetCompoundValue(value: Option<map<Str, NBTTag?>>) returns (r: Result<NBTTag>)
      requires tag.CompoundTag?
      modifies this`tag, if value.Some? then Entries(value.value) else {}
      ensures r.Ok? <==> value.Some? && forall k :: k in value.value ==> value.value[k] != null
      ensures r.Err? ==> r.error == NullPointer && tag == old(tag)
      ensures r.Ok? ==> r.value == this && tag == CompoundTag(old(Snapshot(value.value))) && NamedByKeys(value.value)
    {
      if value.None? {
        return Err(NullPointer);
      }
      var m :- RenameAll(value.value);
      tag := CompoundTag(m);
      return Ok(this);
    }
  }

  /** The root package's NBTOutputStream: the wrapped stream and whether it was put behind GZIP. */
  class NBTOutputStream {
    const os: Streams.Output
    const compressed: bool

    constructor (out: Streams.Output, compressed: bool)
      ensures os == out && this.compressed == compressed
    {
      os := out;
      this.compressed := compressed;
    }

    /** The one-argument constructor: compressed. */
    constructor Default(out: Streams.Output)
      ensures os == out && compressed
    {
      os := out;
      compressed := true;
    }

    /**
     * writeTag: names the tag, then writes in a single write a buffer one
     * longer than its payload, the type byte first and the payload copied
     * after it.
     */
    method WriteTag(t: NBTTag, name: Option<Str>) returns (r: Result<()>)
      modifies t`name, os`written
      ensures t.name == name
      ensures r.Ok? <==> !t.valueNull && Encoded(t.tag, name).Ok?
      ensures r.Err? ==> os.written == old(os.written)
      ensures r.Err? && !t.valueNull ==> r.error == Encoded(t.tag, name).error
      ensures t.valueNull ==> r == Err(NullPointer)
      ensures r.Ok? ==> os.written == old(os.written) + Document(t.tag, name)
    {
      var _ := t.SetName(name);
      var bytes :- t.GetPayloadBytes();
      var out := new Byte[|bytes| + 1];
      for i := 0 to |bytes|
        modifies out
        invariant forall k :: 0 <= k < i ==> out[k + 1] == bytes[k]
      {
        out[i + 1] := bytes[i];
      }
      out[0] := KindId(t.tag);
      assert out[..] == [KindId(t.tag)] + bytes;
      os.Write(out[..]);
      return Ok(());
    }

    method Close()
      modifies os`closed
      ensures os.closed
    {
      os.closed := true;
    }
  }

  /** What writeTag writes for a tag it can encode: its type byte, then its payload under the name. */
  function Document(t: Tag, name: Option<Str>): (r: seq<Byte>)
    requires Encoded(t, name).Ok?
    ensures |r| == 1 + |Encoded(t, name).value| && r[0] == KindId(t) && r[1..] == Encoded(t, name).value
  {
    [KindId(t)] + Encoded(t, name).value
  }

  /**
   * What writeTag writes reads back: the type byte, then NBTParser's named
   * parse of that kind yields the tag under its name and stops where the
   * document ends.
   */
  lemma DocumentReadsBack(t: Tag, name: Str, rest: seq<Byte>)
    requires RootRoundTrip.WellFormed(t) && RootRoundTrip.GoodString(name)
    ensures Encoded(t, Some(name)).Ok?
    ensures ReadSigned(Document(t, Some(name)) + rest, 1) == Ok(Read(KindId(t), Encoded(t, Some(name)).value + rest))
    ensures ParserSpec.TagById(Encoded(t, Some(name)).value + rest, KindId(t), true) == Ok(Read(Some(Named(Some(name), t)), rest))
  {
    RootRoundTrip.TagByIdRoundTrip(t, Some(name), rest);
    var e := Encoded(t, Some(name)).value;
    ConcatAssoc([KindId(t)], e, rest);
    SmallByteEncoding(KindId(t));
    ReadSignedEncoded(KindId(t), 1, e + rest);
    WidthBounds();
  }
}
