// What NBTParser (src/main/java/mryurihi/tbnbt/NBTParser.java) reads, as
// pure functions from the unread bytes to the tag read and the bytes left.
// The imperative parser in module NBTParser is proved against these.
module ParserSpec {
  import opened Bytes
  import opened Tags

  /** The element stored for what parseTagById returned. */
  function SlotOf(n: Option<Named>): (r: Slot)
    ensures r.Some? <==> n.Some?
  {
    if n.None? then None else Some(n.value.tag)
  }

  /**
   * parseTagString(in, false): a signed 2-byte length, a byte[] of that
   * length (negative: NegativeArraySizeException), then that many bytes.
   */
  function StringPayload(s: seq<Byte>): (r: Result<Read<Str>>)
    ensures r.Ok? ==> |r.value.value| <= ShortMax
    ensures r.Ok? ==> |s| == 2 + |r.value.value| + |r.value.rest|
  {
    WidthBounds();
    var len :- ReadSigned(s, 2);
    if len.value < 0 then Err(NegativeArraySize)
    else ReadN(len.rest, len.value)
  }

  /** What StringPayload consumed is exactly the encoding of the string it returned. */
  lemma StringPayloadConsumed(s: seq<Byte>)
    ensures StringPayload(s).Ok? ==>
      s == ShortBytes(|StringPayload(s).value.value|) + StringPayload(s).value.value + StringPayload(s).value.rest
  {
    WidthBounds();
    if StringPayload(s).Ok? {
      EncodeDecodeSigned(s[..2]);
      assert s == s[..2] + s[2..];
    }
  }

  /** The name read first by every parseTagX(in, true); nothing is read when named is false. */
  function NameOf(s: seq<Byte>, named: bool): (r: Result<Read<Option<Str>>>)
    ensures r.Ok? ==> (r.value.value.Some? <==> named)
    ensures r.Ok? && !named ==> r.value.rest == s
    ensures r.Ok? && named ==> |s| == 2 + |r.value.value.value| + |r.value.rest|
  {
    if named then
      var n :- StringPayload(s);
      Ok(Read(Some(n.value), n.rest))
    else Ok(Read(None, s))
  }

  /** parseTagByteArray's payload: an int length, then that many bytes. */
  function ByteArrayPayload(s: seq<Byte>): (r: Result<Read<seq<JByte>>>)
    ensures r.Ok? ==> |s| == 4 + |r.value.value| + |r.value.rest|
  {
    WidthBounds();
    var len :- ReadSigned(s, 4);
    if len.value < 0 then Err(NegativeArraySize)
    else
      var b :- ReadN(len.rest, len.value);
      Ok(Read(SignedBytes(b.value), b.rest))
  }

  /** What ByteArrayPayload consumed is exactly the encoding of the array it returned. */
  lemma ByteArrayPayloadConsumed(s: seq<Byte>)
    ensures ByteArrayPayload(s).Ok? ==>
      var r := ByteArrayPayload(s).value;
      s == IntBytes(|r.value|) + UnsignedBytes(r.value) + r.rest
  {
    WidthBounds();
    if ByteArrayPayload(s).Ok? {
      var len := ReadSigned(s, 4).value;
      var b := ReadN(len.rest, len.value).value;
      EncodeDecodeSigned(s[..4]);
      assert s == s[..4] + len.rest;
      assert UnsignedBytes(SignedBytes(b.value)) == b.value by {
        forall i | 0 <= i < |b.value|
          ensures UnsignedBytes(SignedBytes(b.value))[i] == b.value[i]
        {
          var x := b.value[i];
          assert UnsignedByte(SignedByte(x)) == x by {
            WidthBounds();
            assert SignedByte(UnsignedByte(SignedByte(x))) == SignedByte(x);
          }
        }
      }
    }
  }

  /** n ints of 4 bytes each (readInt in a counted loop). */
  function Ints(s: seq<Byte>, n: nat): (r: Result<Read<seq<JInt>>>)
    ensures r.Ok? ==> |r.value.value| == n
    ensures r.Ok? ==> |s| == 4 * n + |r.value.rest|
    decreases n
  {
    WidthBounds();
    if n == 0 then Ok(Read([], s))
    else
      var x :- ReadSigned(s, 4);
      var xs :- Ints(x.rest, n - 1);
      var v: JInt := x.value;
      Ok(Read([v] + xs.value, xs.rest))
  }

  /** What Ints consumed is exactly the encoding of the ints it returned. */
  lemma {:induction false} IntsConsumed(s: seq<Byte>, n: nat)
    ensures Ints(s, n).Ok? ==> s == IntsBytes(Ints(s, n).value.value) + Ints(s, n).value.rest
  {
    WidthBounds();
    if n > 0 && Ints(s, n).Ok? {
      var x := ReadSigned(s, 4).value;
      IntsConsumed(x.rest, n - 1);
      var xs := Ints(x.rest, n - 1).value;
      EncodeDecodeSigned(s[..4]);
      assert s == s[..4] + x.rest;
      var v := Ints(s, n).value.value;
      assert v == [x.value] + xs.value;
      assert v[1..] == xs.value;
    }
  }

  /** parseTagIntArray's payload: an int length, then that many ints. */
  function IntArrayPayload(s: seq<Byte>): (r: Result<Read<seq<JInt>>>)
    ensures r.Ok? ==> |s| == 4 + 4 * |r.value.value| + |r.value.rest|
  {
    WidthBounds();
    var len :- ReadSigned(s, 4);
    if len.value < 0 then Err(NegativeArraySize)
    else Ints(len.rest, len.value)
  }

  /** IntArrayPayload once its length has been read: that many ints. */
  lemma IntArrayPayloadFrom(s: seq<Byte>, len: nat, tail: seq<Byte>, v: seq<JInt>, rest: seq<Byte>)
    requires ReadSigned(s, 4) == Ok(Read(len, tail)) && Ints(tail, len) == Ok(Read(v, rest))
    ensures IntArrayPayload(s) == Ok(Read(v, rest))
  {
  }

  /** What IntArrayPayload consumed is exactly the encoding of the array it returned. */
  lemma IntArrayPayloadConsumed(s: seq<Byte>)
    ensures IntArrayPayload(s).Ok? ==>
      var r := IntArrayPayload(s).value;
      s == IntBytes(|r.value|) + IntsBytes(r.value) + r.rest
  {
    WidthBounds();
    if IntArrayPayload(s).Ok? {
      var len := ReadSigned(s, 4).value;
      IntsConsumed(len.rest, len.value);
      EncodeDecodeSigned(s[..4]);
      assert s == s[..4] + len.rest;
    }
  }

  /**
   * parseTagById(in, id, named): ids 1..11 go to their parser, which reads
   * the name first when named; 0 and every other id give null and read nothing.
   */
  function TagById(s: seq<Byte>, id: int, named: bool): (r: Result<Read<Option<Named>>>)
    ensures r.Ok? ==> |r.value.rest| <= |s|
    ensures r.Ok? ==> (r.value.value.Some? <==> ByteId <= id <= IntArrayId)
    ensures r.Ok? && r.value.value.Some? ==>
      KindId(r.value.value.value.tag) == id && (r.value.value.value.name.Some? <==> named)
    ensures !(ByteId <= id <= IntArrayId) ==> r == Ok(Read(None, s))
    decreases |s|, 3, 0
  {
    if id < ByteId || id > IntArrayId then Ok(Read(None, s))
    else
      var t :- Parsed(s, id, named);
      Ok(Read(Some(t.value), t.rest))
  }

  /** parseTagByte ... parseTagIntArray: the name when named, then the payload of kind id. */
  function Parsed(s: seq<Byte>, id: int, named: bool): (r: Result<Read<Named>>)
    requires ByteId <= id <= IntArrayId
    ensures r.Ok? ==> |r.value.rest| < |s|
    ensures r.Ok? ==> KindId(r.value.value.tag) == id && (r.value.value.name.Some? <==> named)
    decreases |s|, 2, 1
  {
    var name :- NameOf(s, named);
    WithName(name.value, Payload(name.rest, id))
  }

  /** parseTagString(in, false) returns the string StringPayload reads, unnamed. */
  lemma UnnamedString(s: seq<Byte>)
    ensures Parsed(s, StringId, false).Ok? <==> StringPayload(s).Ok?
    ensures StringPayload(s).Err? ==> Parsed(s, StringId, false).error == StringPayload(s).error
    ensures StringPayload(s).Ok? ==>
      Parsed(s, StringId, false).value ==
        Read(Named(None, StringTag(StringPayload(s).value.value)), StringPayload(s).value.rest)
  {
    assert Parsed(s, StringId, false) == WithName(None, Payload(s, StringId));
  }

  /** The tag object a parser returns: the payload read, under the name read before it. */
  function WithName(name: Option<Str>, r: Result<Read<Tag>>): (p: Result<Read<Named>>)
    ensures p.Ok? <==> r.Ok?
    ensures p.Ok? ==> p.value.value.name == name
  {
    if r.Err? then Err(r.error) else Ok(Read(Named(name, r.value.value), r.value.rest))
  }

  /** The payload of one kind, as parseTagByte ... parseTagIntArray read it after the name. */
  function Payload(s: seq<Byte>, id: int): (r: Result<Read<Tag>>)
    requires ByteId <= id <= IntArrayId
    ensures r.Ok? ==> |r.value.rest| < |s| && KindId(r.value.value) == id
    decreases |s|, 2, 0
  {
    if id == ListId then ListPayload(s)
    else if id == CompoundId then CompoundPayload(s)
    else LeafPayload(s, id)
  }

  function LeafPayload(s: seq<Byte>, id: int): (r: Result<Read<Tag>>)
    requires ByteId <= id <= IntArrayId && id != ListId && id != CompoundId
    ensures r.Ok? ==> |r.value.rest| < |s| && KindId(r.value.value) == id
  {
    WidthBounds();
    if id == ByteId then
      var v :- ReadSigned(s, 1);
      Ok(Read(ByteTag(v.value), v.rest))
    else if id == ShortId then
      var v :- ReadSigned(s, 2);
      Ok(Read(ShortTag(v.value), v.rest))
    else if id == IntId then
      var v :- ReadSigned(s, 4);
      Ok(Read(IntTag(v.value), v.rest))
    else if id == LongId then
      var v :- ReadSigned(s, 8);
      Ok(Read(LongTag(v.value), v.rest))
    else if id == FloatId then
      var v :- ReadN(s, 4);
      Ok(Read(FloatTag(v.value), v.rest))
    else if id == DoubleId then
      var v :- ReadN(s, 8);
      Ok(Read(DoubleTag(v.value), v.rest))
    else if id == ByteArrayId then
      var v :- ByteArrayPayload(s);
      Ok(Read(ByteArrayTag(v.value), v.rest))
    else if id == StringId then
      var v :- StringPayload(s);
      Ok(Read(StringTag(v.value), v.rest))
    else
      var v :- IntArrayPayload(s);
      Ok(Read(IntArrayTag(v.value), v.rest))
  }

  /** parseTagList after the name: element id byte, int count, then count unnamed elements. */
  function ListPayload(s: seq<Byte>): (r: Result<Read<Tag>>)
    ensures r.Ok? ==> |r.value.rest| < |s| && r.value.value.ListTag?
    decreases |s|, 1, 0
  {
    var id :- ReadSigned(s, 1);
    var len :- ReadSigned(id.rest, 4);
    var elems :- Elements(len.rest, id.value, if len.value < 0 then 0 else len.value);
    Ok(Read(ListTag(id.value, elems.value), elems.rest))
  }

  /** The elements pre, followed by those of r, when r succeeds. */
  function Prefixed(pre: seq<Slot>, r: Result<Read<seq<Slot>>>): (p: Result<Read<seq<Slot>>>)
  {
    if r.Err? then r else Ok(Read(pre + r.value.value, r.value.rest))
  }

  lemma PrefixedNothing(r: Result<Read<seq<Slot>>>)
    ensures Prefixed([], r) == r
  {
    if r.Ok? {
      assert [] + r.value.value == r.value.value;
    }
  }

  lemma PrefixedTwice(a: seq<Slot>, b: seq<Slot>, r: Result<Read<seq<Slot>>>)
    ensures Prefixed(a, Prefixed(b, r)) == Prefixed(a + b, r)
  {
    if r.Ok? {
      assert a + (b + r.value.value) == (a + b) + r.value.value;
    }
  }

  /** The loop of parseTagList: n results of parseTagById(in, id, false), in order. */
  function Elements(s: seq<Byte>, id: int, n: nat): (r: Result<Read<seq<Slot>>>)
    ensures r.Ok? ==> |r.value.value| == n && |r.value.rest| <= |s|
    ensures r.Ok? ==> forall i :: 0 <= i < n ==>
      (r.value.value[i].Some? <==> ByteId <= id <= IntArrayId) &&
      (r.value.value[i].Some? ==> KindId(r.value.value[i].value) == id)
    decreases |s|, 4, n
  {
    if n == 0 then Ok(Read([], s))
    else
      var e :- TagById(s, id, false);
      var es :- Elements(e.rest, id, n - 1);
      var all := [SlotOf(e.value)] + es.value;
      assert forall i :: 1 <= i < n ==> all[i] == es.value[i - 1];
      Ok(Read(all, es.rest))
  }

  /** parseTagCompound after the name: the first type byte, then the do-while of Members. */
  function CompoundPayload(s: seq<Byte>): (r: Result<Read<Tag>>)
    ensures r.Ok? ==> |r.value.rest| < |s| && r.value.value.CompoundTag?
    decreases |s|, 1, 0
  {
    var first :- ReadSigned(s, 1);
    var m :- Members(first.rest, first.value, map[]);
    Ok(Read(CompoundTag(m.value), m.rest))
  }

  /**
   * One pass of parseTagCompound's do-while and what follows it: parse a
   * named tag of kind typeId, store it under its name (a null tag fails on
   * getName), read the next type byte and stop when it is 0.
   */
  function Members(s: seq<Byte>, typeId: int, acc: map<Str, Slot>): (r: Result<Read<map<Str, Slot>>>)
    ensures r.Ok? ==> |r.value.rest| < |s|
    ensures r.Ok? ==> acc.Keys <= r.value.value.Keys
    ensures r.Ok? ==> forall k :: k in r.value.value ==> r.value.value[k].Some? || (k in acc && acc[k].None?)
    decreases |s|, 4, 0
  {
    var t :- TagById(s, typeId, true);
    if t.value.None? then Err(NullPointer)
    else
      var key := t.value.value.name.value;
      var acc' := acc[key := Some(t.value.value.tag)];
      var next :- ReadSigned(t.rest, 1);
      if next.value == 0 then Ok(Read(acc', next.rest))
      else Members(next.rest, next.value, acc')
  }

  /** CompoundPayload once its first type byte has been read: the member loop from that byte. */
  lemma CompoundPayloadFrom(s: seq<Byte>, b: int, after: seq<Byte>, m: map<Str, Slot>, rest: seq<Byte>)
    requires ReadSigned(s, 1) == Ok(Read(b, after)) && Members(after, b, map[]) == Ok(Read(m, rest))
    ensures CompoundPayload(s) == Ok(Read(CompoundTag(m), rest))
  {
  }

  /** One element of a list loop: the element read, then the remaining n - 1. */
  lemma ElementsStep(s: seq<Byte>, id: int, n: nat, e: Tag, rest: seq<Byte>)
    requires n > 0 && TagById(s, id, false) == Ok(Read(Some(Named(None, e)), rest))
    ensures Elements(s, id, n) == Prefixed([Some(e)], Elements(rest, id, n - 1))
  {
  }

  /** A pass of the member loop whose next type byte is 0 stores the member and ends the compound. */
  lemma MembersStop(s: seq<Byte>, typeId: int, acc: map<Str, Slot>, key: Str, t: Tag, rest: seq<Byte>)
    requires TagById(s, typeId, true) == Ok(Read(Some(Named(Some(key), t)), [0] + rest))
    ensures Members(s, typeId, acc) == Ok(Read(acc[key := Some(t)], rest))
  {
    WidthBounds();
    assert ([0] + rest)[..1] == [0] && ([0] + rest)[1..] == rest;
    assert DecodeSigned([0]) == 0;
  }

  /** A pass of the member loop whose next type byte b is not 0 stores the member and goes on with kind b. */
  lemma MembersContinue(s: seq<Byte>, typeId: int, acc: map<Str, Slot>, key: Str, t: Tag, b: Byte, after: seq<Byte>)
    requires 0 < b < 0x80
    requires TagById(s, typeId, true) == Ok(Read(Some(Named(Some(key), t)), [b] + after))
    ensures Members(s, typeId, acc) == Members(after, b, acc[key := Some(t)])
  {
    WidthBounds();
    assert ([b] + after)[..1] == [b] && ([b] + after)[1..] == after;
    assert SignedByte(b) == b;
  }

  /** A parser that reads name, then a payload, returns that payload under that name. */
  lemma ParsedFrom(s: seq<Byte>, id: int, named: bool, name: Option<Str>, x: seq<Byte>, t: Tag, rest: seq<Byte>)
    requires ByteId <= id <= IntArrayId
    requires NameOf(s, named) == Ok(Read(name, x)) && Payload(x, id) == Ok(Read(t, rest))
    ensures Parsed(s, id, named) == Ok(Read(Named(name, t), rest))
  {
  }
}
