// The getPayloadBytes methods of the root package (src/main/java/mryurihi/tbnbt/),
// as the buffer-filling algorithms they are: a fixed-size array filled
// through a running index (NBTTagString), two index loops (NBTTagByteArray),
// byte-by-byte appends to a list followed by a copy into an array
// (NBTTagIntArray, NBTTagList), appends to an output list (NBTTagShort,
// NBTTagCompound).  Each method is proved to produce exactly the bytes that
// RootCodec.Encoded describes, or to fail with the same exception.
module RootPayload {
  import opened Bytes
  import opened Tags
  import opened RootCodec
  import KeyOrder

  /** The failure of a, else the bytes pre followed by those of a. */
  function After(pre: seq<Byte>, a: Result<seq<Byte>>): (r: Result<seq<Byte>>)
    ensures r.Ok? <==> a.Ok?
  {
    if a.Err? then a else Ok(pre + a.value)
  }

  lemma AfterNothing(a: Result<seq<Byte>>)
    ensures After([], a) == a
  {
    if a.Ok? {
      assert [] + a.value == a.value;
    }
  }

  lemma AfterTwice(p: seq<Byte>, q: seq<Byte>, a: Result<seq<Byte>>)
    ensures After(p, After(q, a)) == After(p + q, a)
  {
    if a.Ok? {
      ConcatAssoc(p, q, a.value);
    }
  }

  /** for (byte b: bytes) aux.add(b): the bytes appended one at a time. */
  method AddAll(aux: seq<Byte>, bytes: seq<Byte>) returns (r: seq<Byte>)
    ensures r == aux + bytes
  {
    r := aux;
    for k := 0 to |bytes|
      invariant r == aux + bytes[..k]
    {
      assert bytes[..k + 1] == bytes[..k] + [bytes[k]];
      r := r + [bytes[k]];
    }
    assert bytes[..|bytes|] == bytes;
  }

  /**
   * NBTTag.listToArray: a new array of the list's size, out[i] set to the
   * i-th element of the list.
   */
  method ListToArray(list: seq<Byte>) returns (out: array<Byte>)
    ensures out.Length == |list|
    ensures forall i :: 0 <= i < |list| ==> out[i] == list[i]
  {
    out := new Byte[|list|];
    for i := 0 to |list|
      invariant forall k :: 0 <= k < i ==> out[k] == list[k]
    {
      out[i] := list[i];
    }
  }

  /**
   * The body of NBTTagString.getPayloadBytes for a value that passed the
   * length guard: a buffer of value.length() + 2 bytes, the Short payload of
   * that character count, then value.getBytes() copied through a running
   * index, which runs off the end of the buffer when the string has more
   * bytes than characters.
   */
  method StringOut(v: Str) returns (r: Result<seq<Byte>>)
    requires JavaLength(v) <= ShortMax
    ensures r.Ok? <==> JavaLength(v) == |v|
    ensures r.Err? ==> r.error == IndexOutOfBounds
    ensures r.Ok? ==> |r.value| == JavaLength(v) + 2
    ensures r.Ok? ==> r.value[..2] == ShortBytes(JavaLength(v)) && r.value[2..] == v
  {
    var out := new Byte[JavaLength(v) + 2];
    var i := 0;
    var lengthBytes := ShortPayloadOut(JavaLength(v));
    for k := 0 to 2
      invariant i == k
      invariant forall m :: 0 <= m < i ==> out[m] == lengthBytes[m]
    {
      out[i] := lengthBytes[k];
      i := i + 1;
    }
    for k := 0 to |v|
      invariant i == 2 + k && i <= out.Length
      invariant forall m :: 0 <= m < 2 ==> out[m] == lengthBytes[m]
      invariant forall m :: 2 <= m < i ==> out[m] == v[m - 2]
    {
      if i >= out.Length {
        return Err(IndexOutOfBounds);
      }
      out[i] := v[k];
      i := i + 1;
    }
    assert out[..2] == lengthBytes;
    assert out[2..] == v;
    return Ok(out[..]);
  }

  /** new NBTTagShort(v).getPayloadBytes() with no name: the two bytes ByteBuffer.putShort writes. */
  method ShortPayloadOut(v: int) returns (out: seq<Byte>)
    ensures |out| == 2
    ensures out == ShortBytes(v)
  {
    out := [];
    out := AddAll(out, ShortBytes(v));
  }

  /**
   * new NBTTagString(v).getPayloadBytes() with no name, as addName and the
   * name-first classes use it: the constructor's length guard, then the
   * buffer fill.
   */
  method StringBytes(v: Str) returns (r: Result<seq<Byte>>)
    ensures r == StringBody(v)
  {
    if JavaLength(v) > ShortMax {
      return Err(IllegalArgument);
    }
    r := StringOut(v);
    if r.Ok? {
      assert r.value == r.value[..2] + r.value[2..];
    }
  }

  /**
   * addName, which the classes call but the repository never defines: taken
   * to put the name's String payload (the 2-byte count, then the bytes) in
   * front of the bytes built so far, the order the tag-package
   * NBTTagString.getPayloadBytes writes, and to add nothing for a null name.
   */
  method AddName(out: seq<Byte>, name: Option<Str>) returns (r: Result<seq<Byte>>)
    ensures r == NameLast(name, Ok(out))
    ensures name.None? ==> r == Ok(out)
    ensures name.Some? ==> (r.Ok? <==> StringBody(name.value).Ok?)
    ensures name.Some? && r.Ok? ==> r.value == StringBody(name.value).value + out
    ensures r.Err? ==> name.Some? && r.error == StringBody(name.value).error
  {
    if name.None? {
      assert [] + out == out;
      return Ok(out);
    }
    var n :- StringBytes(name.value);
    return Ok(n + out);
  }

  /** The body of NBTTagByteArray.getPayloadBytes: out[0..3] the length's Int payload, out[i] = value[i - 4] after it. */
  method ByteArrayOut(v: seq<JByte>) returns (out: array<Byte>)
    ensures out.Length == |v| + 4
    ensures out[..4] == IntBytes(|v|)
    ensures forall i :: 4 <= i < out.Length ==> out[i] == UnsignedByte(v[i - 4])
  {
    var length := |v|;
    out := new Byte[length + 4];
    var lengthBytes := IntBytes(length);
    for i := 0 to 4
      invariant forall k :: 0 <= k < i ==> out[k] == lengthBytes[k]
    {
      out[i] := lengthBytes[i];
    }
    for i := 4 to out.Length
      invariant forall k :: 0 <= k < 4 ==> out[k] == lengthBytes[k]
      invariant forall k :: 4 <= k < i ==> out[k] == UnsignedByte(v[k - 4])
    {
      out[i] := UnsignedByte(v[i - 4]);
    }
    assert out[..4] == lengthBytes;
  }

  /** The layout ByteArrayOut fills is the length followed by the array's bytes. */
  lemma ByteArrayLayout(v: seq<JByte>, out: seq<Byte>)
    requires |out| == |v| + 4 && out[..4] == IntBytes(|v|)
    requires forall i :: 4 <= i < |out| ==> out[i] == UnsignedByte(v[i - 4])
    ensures out == IntBytes(|v|) + UnsignedBytes(v)
  {
    assert out[4..] == UnsignedBytes(v);
    assert out == out[..4] + out[4..];
  }

  /** The ints of a followed by x, written four bytes each. */
  lemma {:induction false} IntsBytesSnoc(a: seq<int>, x: int)
    ensures IntsBytes(a + [x]) == IntsBytes(a) + IntBytes(x)
  {
    if a == [] {
      assert [] + [x] == [x];
      assert IntsBytes([x]) == IntBytes(x) + IntsBytes([]);
    } else {
      assert (a + [x])[0] == a[0];
      assert (a + [x])[1..] == a[1..] + [x];
      IntsBytesSnoc(a[1..], x);
      ConcatAssoc(IntBytes(a[0]), IntsBytes(a[1..]), IntBytes(x));
    }
  }

  /**
   * The body of NBTTagIntArray.getPayloadBytes: the four bytes of the length
   * appended to aux, then the four bytes of each int in order, then aux
   * copied into an array.
   */
  method IntArrayOut(v: seq<JInt>) returns (out: array<Byte>)
    ensures out[..] == IntBytes(|v|) + IntsBytes(v)
  {
    var aux: seq<Byte> := [];
    aux := AddAll(aux, IntBytes(|v|));
    for k := 0 to |v|
      invariant aux == IntBytes(|v|) + IntsBytes(v[..k])
    {
      IntsBytesSnoc(v[..k], v[k]);
      assert v[..k + 1] == v[..k] + [v[k]];
      ConcatAssoc(IntBytes(|v|), IntsBytes(v[..k]), IntBytes(v[k]));
      aux := AddAll(aux, IntBytes(v[k]));
    }
    assert v[..|v|] == v;
    out := ListToArray(aux);
    assert out[..] == aux;
  }

  /** NBTTagShort.getPayloadBytes: the name's String payload when named, then the two bytes of the value. */
  method ShortPayloadBytes(v: JShort, name: Option<Str>) returns (r: Result<seq<Byte>>)
    ensures r == Encoded(ShortTag(v), name)
  {
    var out: seq<Byte> := [];
    if name.Some? {
      var n :- StringBytes(name.value);
      out := AddAll(out, n);
    }
    assert out == NameBytes(name).value;
    var b := ShortPayloadOut(v);
    out := AddAll(out, b);
    assert Body(ShortTag(v)) == Ok(b);
    return Ok(out);
  }

  /**
   * getPayloadBytes of the object holding t, whose name field is name,
   * dispatched on the class as Java's virtual call is.
   */
  method PayloadBytes(t: Tag, name: Option<Str>) returns (r: Result<seq<Byte>>)
    ensures r == Encoded(t, name)
    decreases t, 2
  {
    match t
    case ShortTag(v) =>
      r := ShortPayloadBytes(v, name);
    case StringTag(v) =>
      // Every stored value passed the constructor's guard; one that could
      // not have is refused by StringBytes the way the guard refuses it.
      var b :- StringBytes(v);
      r := AddName(b, name);
    case ByteArrayTag(v) =>
      var out := ByteArrayOut(v);
      ByteArrayLayout(v, out[..]);
      r := AddName(out[..], name);
    case IntArrayTag(v) =>
      var out := IntArrayOut(v);
      r := AddName(out[..], name);
    case ListTag(_, _) =>
      r := ListPayloadBytes(t, name);
    case CompoundTag(_) =>
      r := CompoundPayloadBytes(t, name);
    case _ =>
      // NBTTagByte, NBTTagInt, NBTTagLong, NBTTagFloat and NBTTagDouble of
      // this package are not part of this model: their framing (name first,
      // then the fixed-width value) is the one their callers rely on.
      r := Encoded(t, name);
  }

  /**
   * NBTTagList.getPayloadBytes: aux gets the (byte) typeId, the Int payload
   * of the size and the elements' bytes (ElemsOut); aux is copied into an
   * array, which addName prefixes with the list's name when it has one.
   */
  method ListPayloadBytes(t: Tag, name: Option<Str>) returns (r: Result<seq<Byte>>)
    requires t.ListTag?
    ensures r == Encoded(t, name)
    decreases t, 1
  {
    var aux: seq<Byte> := EncodeSigned(t.elemType, 1);
    aux := AddAll(aux, IntBytes(|t.elems|));
    ListFromElems(t, name);
    var es :- ElemsOut(t);
    aux := AddAll(aux, es);
    var out := ListToArray(aux);
    assert out[..] == aux;
    r := AddName(out[..], name);
  }

  /** The element loop of NBTTagList.getPayloadBytes: each element's unnamed payload in order; null fails. */
  method ElemsOut(t: Tag) returns (r: Result<seq<Byte>>)
    requires t.ListTag?
    ensures r == ElemsBytes(t, 0)
    decreases t, 0
  {
    var aux: seq<Byte> := [];
    AfterNothing(ElemsBytes(t, 0));
    var i := 0;
    while i < |t.elems|
      invariant 0 <= i <= |t.elems|
      invariant ElemsBytes(t, 0) == After(aux, ElemsBytes(t, i))
    {
      ElemsStep(t, i);
      if t.elems[i].None? {
        return Err(NullPointer);
      }
      var e := PayloadBytes(t.elems[i].value, None);
      if e.Err? {
        return Err(e.error);
      }
      AfterTwice(aux, e.value, ElemsBytes(t, i + 1));
      aux := AddAll(aux, e.value);
      i := i + 1;
    }
    assert aux + [] == aux;
    return Ok(aux);
  }

  /** One step of the list loop: a null element fails, else its unnamed payload comes first. */
  lemma ElemsStep(t: Tag, i: nat)
    requires t.ListTag? && i < |t.elems|
    ensures t.elems[i].None? ==> ElemsBytes(t, i) == Err(NullPointer)
    ensures t.elems[i].Some? ==>
      var e := Encoded(t.elems[i].value, None);
      ElemsBytes(t, i) == if e.Err? then Err(e.error) else After(e.value, ElemsBytes(t, i + 1))
  {
  }

  /** A list's bytes: type byte, count and elements, then its name in front; or the first failure. */
  lemma ListFromElems(t: Tag, name: Option<Str>)
    requires t.ListTag?
    ensures ElemsBytes(t, 0).Err? ==> Encoded(t, name) == Err(ElemsBytes(t, 0).error)
    ensures ElemsBytes(t, 0).Ok? ==>
      Encoded(t, name) == NameLast(name, Ok(EncodeSigned(t.elemType, 1) + IntBytes(|t.elems|) + ElemsBytes(t, 0).value))
  {
  }

  /**
   * NBTTagCompound.getPayloadBytes: the name's String payload when named,
   * then the entries (MembersOut), then a single 0.
   */
  method CompoundPayloadBytes(t: Tag, name: Option<Str>) returns (r: Result<seq<Byte>>)
    requires t.CompoundTag?
    ensures r == Encoded(t, name)
    decreases t, 1
  {
    var out: seq<Byte> := [];
    if name.Some? {
      var n :- StringBytes(name.value);
      out := AddAll(out, n);
    }
    assert out == NameBytes(name).value;
    var keys := KeyOrder.Order(t.members.Keys);
    CompoundFromMembers(t, name, keys);
    var ms :- MembersOut(t, keys);
    out := AddAll(out, ms);
    ConcatAssoc(NameBytes(name).value, ms, [0]);
    out := out + [0];
    return Ok(out);
  }

  /**
   * The entry loop of NBTTagCompound.getPayloadBytes: for each entry in the
   * map's iteration order, its type byte and its own payload, named by its
   * key; a null member fails on getTagType.
   */
  method MembersOut(t: Tag, keys: seq<Str>) returns (r: Result<seq<Byte>>)
    requires t.CompoundTag? && keys == KeyOrder.Order(t.members.Keys)
    ensures r == MembersBytes(t, keys, 0)
    decreases t, 0
  {
    var out: seq<Byte> := [];
    AfterNothing(MembersBytes(t, keys, 0));
    var j := 0;
    while j < |keys|
      invariant 0 <= j <= |keys|
      invariant MembersBytes(t, keys, 0) == After(out, MembersBytes(t, keys, j))
    {
      var member := t.members[keys[j]];
      MembersStep(t, keys, j);
      if member.None? {
        return Err(NullPointer);
      }
      var typeByte := EncodeSigned(KindId(member.value), 1);
      var e := PayloadBytes(member.value, Some(keys[j]));
      if e.Err? {
        return Err(e.error);
      }
      AfterTwice(out, typeByte + e.value, MembersBytes(t, keys, j + 1));
      out := AddAll(out, typeByte + e.value);
      j := j + 1;
    }
    assert out + [] == out;
    return Ok(out);
  }

  /** One step of the compound loop: a null member fails, else its type byte and named payload come first. */
  lemma MembersStep(t: Tag, keys: seq<Str>, j: nat)
    requires t.CompoundTag? && j < |keys|
    requires forall k :: k in keys ==> k in t.members
    ensures t.members[keys[j]].None? ==> MembersBytes(t, keys, j) == Err(NullPointer)
    ensures t.members[keys[j]].Some? ==>
      var c := t.members[keys[j]].value;
      var e := Encoded(c, Some(keys[j]));
      MembersBytes(t, keys, j) == if e.Err? then Err(e.error) else After(EncodeSigned(KindId(c), 1) + e.value, MembersBytes(t, keys, j + 1))
  {
  }

  /** A compound's bytes: its name's, then those of the member loop and the closing 0, or the loop's failure. */
  lemma CompoundFromMembers(t: Tag, name: Option<Str>, keys: seq<Str>)
    requires t.CompoundTag? && keys == KeyOrder.Order(t.members.Keys) && NameBytes(name).Ok?
    ensures MembersBytes(t, keys, 0).Err? ==> Encoded(t, name) == Err(MembersBytes(t, keys, 0).error)
    ensures MembersBytes(t, keys, 0).Ok? ==> Encoded(t, name) == Ok(NameBytes(name).value + (MembersBytes(t, keys, 0).value + [0]))
  {
  }
}
