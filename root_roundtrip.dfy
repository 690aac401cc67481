// The root package's encoder and NBTParser agree: parsing what
// getPayloadBytes writes gives back the tag and its name, and leaves the
// bytes that followed, for every tag the wire format can carry unchanged.
module RootRoundTrip {
  import opened Bytes
  import opened Tags
  import KeyOrder
  import opened ParserSpec
  import opened RootCodec

  /** A string both codecs carry unchanged: short enough, and one byte per character. */
  predicate GoodString(s: Str)
  {
    |s| <= ShortMax && JavaLength(s) == |s|
  }

  /**
   * The tags that survive the round trip: strings as above, floats and
   * doubles of their width, arrays and lists that fit a Java int length,
   * lists whose elements are non-null and of the list's kind, compounds that
   * are non-empty (NBTParser cannot read an empty one) with non-null members,
   * and no long arrays (NBTParser has no reader for them).
   */
  predicate WellFormed(t: Tag)
    decreases t
  {
    match t
    case ByteTag(_) => true
    case ShortTag(_) => true
    case IntTag(_) => true
    case LongTag(_) => true
    case FloatTag(bits) => |bits| == 4
    case DoubleTag(bits) => |bits| == 8
    case ByteArrayTag(v) => |v| < 0x8000_0000
    case StringTag(v) => GoodString(v)
    case ListTag(id, elems) =>
      -0x80 <= id < 0x80 && |elems| < 0x8000_0000 &&
      forall i :: 0 <= i < |elems| ==> elems[i].Some? && KindId(elems[i].value) == id && WellFormed(elems[i].value)
    case CompoundTag(m) =>
      |m| > 0 && forall k :: k in m ==> GoodString(k) && m[k].Some? && WellFormed(m[k].value)
    case IntArrayTag(v) => |v| < 0x8000_0000
    case LongArrayTag(_) => false
  }

  lemma WellFormedKind(t: Tag)
    requires WellFormed(t)
    ensures ByteId <= KindId(t) <= IntArrayId
  {
  }

  /** A string payload reads back as the string, leaving what followed. */
  lemma StringRoundTrip(v: Str, rest: seq<Byte>)
    requires |v| <= ShortMax
    ensures StringPayload(ShortBytes(|v|) + v + rest) == Ok(Read(v, rest))
  {
    WidthBounds();
    assert ShortBytes(|v|) + v + rest == EncodeSigned(|v|, 2) + (v + rest);
    ReadSignedEncoded(|v|, 2, v + rest);
    assert (v + rest)[..|v|] == v && (v + rest)[|v|..] == rest;
  }

  /** The name a getPayloadBytes writes is the name parseTagX(in, true) reads. */
  lemma NameRoundTrip(name: Option<Str>, x: seq<Byte>)
    requires name.Some? ==> GoodString(name.value)
    ensures NameBytes(name).Ok?
    ensures NameOf(NameBytes(name).value + x, name.Some?) == Ok(Read(name, x))
  {
    if name.Some? {
      StringRoundTrip(name.value, x);
      assert NameBytes(name).value + x == ShortBytes(|name.value|) + name.value + x;
    } else {
      assert NameBytes(name).value + x == x;
    }
  }

  /** n ints written back to back read back as those ints. */
  lemma {:induction false} IntsRoundTrip(v: seq<JInt>, rest: seq<Byte>)
    ensures Ints(IntsBytes(v) + rest, |v|) == Ok(Read(v, rest))
  {
    WidthBounds();
    if v != [] {
      var tail := IntsBytes(v[1..]) + rest;
      assert IntsBytes(v) + rest == EncodeSigned(v[0], 4) + tail;
      ReadSignedEncoded(v[0], 4, tail);
      IntsRoundTrip(v[1..], rest);
      assert [v[0]] + v[1..] == v;
    } else {
      assert IntsBytes(v) + rest == rest;
    }
  }

  /**
   * Round trip: the bytes getPayloadBytes writes for a well-formed tag under
   * a good name are read by the parser of that tag's kind as that tag with
   * that name, and what follows them is left unread.
   */
  lemma {:induction false} RoundTrip(t: Tag, name: Option<Str>, rest: seq<Byte>)
    requires WellFormed(t) && (name.Some? ==> GoodString(name.value))
    ensures Encoded(t, name).Ok?
    ensures Parsed(Encoded(t, name).value + rest, KindId(t), name.Some?) == Ok(Read(Named(name, t), rest))
    decreases t, 2
  {
    BodyRoundTrip(t, rest);
    var b := Body(t).value;
    NameRoundTrip(name, b + rest);
    var n := NameBytes(name).value;
    assert Encoded(t, name) == Ok(n + b);
    ConcatAssoc(n, b, rest);
    WellFormedKind(t);
    ParsedFrom(n + (b + rest), KindId(t), name.Some?, name, b + rest, t, rest);
  }

  /** parseTagById(in, kind, named) on what getPayloadBytes wrote gives the tag back. */
  lemma {:induction false} TagByIdRoundTrip(t: Tag, name: Option<Str>, rest: seq<Byte>)
    requires WellFormed(t) && (name.Some? ==> GoodString(name.value))
    ensures Encoded(t, name).Ok?
    ensures TagById(Encoded(t, name).value + rest, KindId(t), name.Some?) == Ok(Read(Some(Named(name, t)), rest))
    decreases t, 3
  {
    RoundTrip(t, name, rest);
    WellFormedKind(t);
  }

  /** The unnamed bytes of a well-formed tag read back, by the payload reader of its kind, as the tag. */
  lemma {:induction false} BodyRoundTrip(t: Tag, rest: seq<Byte>)
    requires WellFormed(t)
    ensures Body(t).Ok?
    ensures Payload(Body(t).value + rest, KindId(t)) == Ok(Read(t, rest))
    decreases t, 1
  {
    if t.ListTag? {
      ListRoundTrip(t, rest);
      assert Payload(Body(t).value + rest, ListId) == ListPayload(Body(t).value + rest);
    } else if t.CompoundTag? {
      CompoundRoundTrip(t, rest);
      assert Payload(Body(t).value + rest, CompoundId) == CompoundPayload(Body(t).value + rest);
    } else {
      LeafRoundTrip(t, rest);
    }
  }

  /** The leaf kinds: fixed-width values, byte and int arrays, strings. */
  lemma LeafRoundTrip(t: Tag, rest: seq<Byte>)
    requires WellFormed(t) && !t.ListTag? && !t.CompoundTag?
    ensures Body(t).Ok?
    ensures Payload(Body(t).value + rest, KindId(t)) == Ok(Read(t, rest))
  {
    if t.ByteTag? || t.ShortTag? || t.IntTag? || t.LongTag? {
      NumberRoundTrip(t, rest);
    } else if t.FloatTag? || t.DoubleTag? {
      BitsRoundTrip(t, rest);
    } else {
      ArrayRoundTrip(t, rest);
    }
  }

  /** Byte, Short, Int and Long: the big-endian two's complement of the value. */
  lemma NumberRoundTrip(t: Tag, rest: seq<Byte>)
    requires t.ByteTag? || t.ShortTag? || t.IntTag? || t.LongTag?
    ensures Body(t).Ok?
    ensures Payload(Body(t).value + rest, KindId(t)) == Ok(Read(t, rest))
  {
    WidthBounds();
    match t
    case ByteTag(b) =>
      ReadSignedEncoded(b, 1, rest);
    case ShortTag(v) =>
      ReadSignedEncoded(v, 2, rest);
    case IntTag(v) =>
      ReadSignedEncoded(v, 4, rest);
    case LongTag(v) =>
      ReadSignedEncoded(v, 8, rest);
  }

  /** Float and Double: their raw IEEE 754 bits. */
  lemma BitsRoundTrip(t: Tag, rest: seq<Byte>)
    requires (t.FloatTag? || t.DoubleTag?) && WellFormed(t)
    ensures Body(t).Ok?
    ensures Payload(Body(t).value + rest, KindId(t)) == Ok(Read(t, rest))
  {
    match t
    case FloatTag(bits) =>
      assert (bits + rest)[..4] == bits && (bits + rest)[4..] == rest;
    case DoubleTag(bits) =>
      assert (bits + rest)[..8] == bits && (bits + rest)[8..] == rest;
  }

  /** ByteArray, String and IntArray: a length, then the elements. */
  lemma ArrayRoundTrip(t: Tag, rest: seq<Byte>)
    requires (t.ByteArrayTag? || t.StringTag? || t.IntArrayTag?) && WellFormed(t)
    ensures Body(t).Ok?
    ensures Payload(Body(t).value + rest, KindId(t)) == Ok(Read(t, rest))
  {
    WidthBounds();
    match t
    case ByteArrayTag(v) =>
      ByteArrayRoundTrip(v, rest);
    case StringTag(v) =>
      StringRoundTrip(v, rest);
    case IntArrayTag(v) =>
      IntArrayRoundTrip(v, rest);
  }

  lemma IntArrayRoundTrip(v: seq<JInt>, rest: seq<Byte>)
    requires |v| < 0x8000_0000
    ensures IntArrayPayload(IntBytes(|v|) + IntsBytes(v) + rest) == Ok(Read(v, rest))
  {
    var s := IntBytes(|v|) + IntsBytes(v) + rest;
    ConcatAssoc(IntBytes(|v|), IntsBytes(v), rest);
    ReadIntLength(|v|, IntsBytes(v) + rest);
    IntsRoundTrip(v, rest);
    IntArrayPayloadFrom(s, |v|, IntsBytes(v) + rest, v, rest);
  }

  lemma ByteArrayRoundTrip(v: seq<JByte>, rest: seq<Byte>)
    requires |v| < 0x8000_0000
    ensures ByteArrayPayload(IntBytes(|v|) + UnsignedBytes(v) + rest) == Ok(Read(v, rest))
  {
    WidthBounds();
    var w := UnsignedBytes(v);
    assert IntBytes(|v|) + w + rest == EncodeSigned(|v|, 4) + (w + rest);
    ReadSignedEncoded(|v|, 4, w + rest);
    assert (w + rest)[..|v|] == w && (w + rest)[|v|..] == rest;
  }

  /** A list: its element id, its count, then its elements. */
  lemma {:induction false} ListRoundTrip(t: Tag, rest: seq<Byte>)
    requires t.ListTag? && WellFormed(t)
    ensures Body(t).Ok?
    ensures ListPayload(Body(t).value + rest) == Ok(Read(t, rest))
    decreases t, 0, |t.elems| + 1
  {
    WidthBounds();
    var id, elems := t.elemType, t.elems;
    ElemsRoundTrip(t, 0, rest);
    var es := ElemsBytes(t, 0).value;
    var a, b := EncodeSigned(id, 1), EncodeSigned(|elems|, 4);
    assert Body(t).value == a + b + es;
    ConcatAssoc4(a, b, es, rest);
    ConcatAssoc(b, es, rest);
    ReadSignedEncoded(id, 1, EncodeSigned(|elems|, 4) + (es + rest));
    ReadSignedEncoded(|elems|, 4, es + rest);
    assert elems[0..] == elems;
  }

  /** The list loop from element i on reads back as the elements from i on. */
  lemma {:induction false} ElemsRoundTrip(t: Tag, i: nat, rest: seq<Byte>)
    requires t.ListTag? && WellFormed(t) && i <= |t.elems|
    ensures ElemsBytes(t, i).Ok?
    ensures Elements(ElemsBytes(t, i).value + rest, t.elemType, |t.elems| - i) == Ok(Read(t.elems[i..], rest))
    decreases t, 0, |t.elems| - i
  {
    if i == |t.elems| {
      ElemsEnd(t, i, rest);
    } else {
      ElemsRoundTrip(t, i + 1, rest);
      ElemsStep(t, i, rest);
    }
  }

  /** Element i of a well-formed list, in front of the later ones that read back, reads back with them. */
  lemma ElemsStep(t: Tag, i: nat, rest: seq<Byte>)
    requires t.ListTag? && WellFormed(t) && i < |t.elems|
    requires ElemsBytes(t, i + 1).Ok?
    requires Elements(ElemsBytes(t, i + 1).value + rest, t.elemType, |t.elems| - (i + 1)) == Ok(Read(t.elems[i + 1..], rest))
    ensures ElemsBytes(t, i).Ok?
    ensures Elements(ElemsBytes(t, i).value + rest, t.elemType, |t.elems| - i) == Ok(Read(t.elems[i..], rest))
    decreases t, 0, 0
  {
    var e := t.elems[i].value;
    var es := ElemsBytes(t, i + 1).value;
    TagByIdRoundTrip(e, None, es + rest);
    ElemRoundTrip(t, i, e, Encoded(e, None).value, es, rest);
  }

  /** Past the last element nothing is written, and nothing is read. */
  lemma ElemsEnd(t: Tag, i: nat, rest: seq<Byte>)
    requires t.ListTag? && i == |t.elems|
    ensures ElemsBytes(t, i).Ok?
    ensures Elements(ElemsBytes(t, i).value + rest, t.elemType, |t.elems| - i) == Ok(Read(t.elems[i..], rest))
  {
    assert ElemsBytes(t, i).value + rest == rest;
    assert t.elems[i..] == [];
    assert Elements(rest, t.elemType, 0) == Ok(Read([], rest));
  }

  /** Element i written in front of the later ones, which read back, reads back with them. */
  lemma ElemRoundTrip(t: Tag, i: nat, e: Tag, x: seq<Byte>, es: seq<Byte>, rest: seq<Byte>)
    requires t.ListTag? && i < |t.elems| && t.elems[i] == Some(e) && KindId(e) == t.elemType
    requires Encoded(e, None) == Ok(x) && ElemsBytes(t, i + 1) == Ok(es)
    requires TagById(x + (es + rest), t.elemType, false) == Ok(Read(Some(Named(None, e)), es + rest))
    requires Elements(es + rest, t.elemType, |t.elems| - (i + 1)) == Ok(Read(t.elems[i + 1..], rest))
    ensures ElemsBytes(t, i).Ok?
    ensures Elements(ElemsBytes(t, i).value + rest, t.elemType, |t.elems| - i) == Ok(Read(t.elems[i..], rest))
  {
    ConcatAssoc(x, es, rest);
    ElementsStep(x + (es + rest), t.elemType, |t.elems| - i, e, es + rest);
    SliceCons(t.elems, i);
  }

  /** A compound: the first type byte, then the member loop. */
  lemma {:induction false} CompoundRoundTrip(t: Tag, rest: seq<Byte>)
    requires t.CompoundTag? && WellFormed(t)
    ensures Body(t).Ok?
    ensures CompoundPayload(Body(t).value + rest) == Ok(Read(t, rest))
    decreases t, 0, |KeyOrder.Order(t.members.Keys)| + 1
  {
    var m := t.members;
    var keys := KeyOrder.Order(m.Keys);
    assert |keys| > 0 by {
      var k :| k in m;
      assert k in keys;
    }
    assert keys[0] in m;
    MemberWellFormed(t, keys[0]);
    MembersRoundTrip(t, keys, 0, map[], rest);
    CompoundGlue(t, keys, rest);
  }

  /** A member of a well-formed compound is present, well-formed, and of a kind the parser reads. */
  lemma MemberWellFormed(t: Tag, k: Str)
    requires t.CompoundTag? && WellFormed(t) && k in t.members
    ensures t.members[k].Some? && WellFormed(t.members[k].value)
    ensures ByteId <= KindId(t.members[k].value) <= IntArrayId
  {
    WellFormedKind(t.members[k].value);
  }

  /**
   * The compound's bytes are the first member's type byte, then what the
   * member loop reads, then the closing 0: so the compound reader gives the
   * members the loop collects.
   */
  lemma CompoundGlue(t: Tag, keys: seq<Str>, rest: seq<Byte>)
    requires t.CompoundTag? && keys == KeyOrder.Order(t.members.Keys) && |keys| > 0
    requires keys[0] in t.members && t.members[keys[0]].Some?
    requires ByteId <= KindId(t.members[keys[0]].value) <= IntArrayId
    requires Encoded(t.members[keys[0]].value, Some(keys[0])).Ok? && MembersBytes(t, keys, 1).Ok?
    requires
      Members(Encoded(t.members[keys[0]].value, Some(keys[0])).value + MembersBytes(t, keys, 1).value + [0] + rest,
              KindId(t.members[keys[0]].value), map[]) == Ok(Read(t.members, rest))
    ensures Body(t).Ok?
    ensures CompoundPayload(Body(t).value + rest) == Ok(Read(t, rest))
  {
    var k0 := keys[0];
    var c0 := t.members[k0].value;
    var e0 := Encoded(c0, Some(k0)).value;
    var ms1 := MembersBytes(t, keys, 1).value;
    var after := e0 + ms1 + [0] + rest;
    SmallByteEncoding(KindId(c0));
    assert Body(t).value + rest == [KindId(c0)] + after by {
      CompoundBodyFirst(t, keys);
      ConcatAssoc5([KindId(c0)], e0, ms1, [0], rest);
    }
    assert ReadSigned([KindId(c0)] + after, 1) == Ok(Read(KindId(c0), after)) by {
      ReadSignedEncoded(KindId(c0), 1, after);
      WidthBounds();
    }
    CompoundPayloadFrom([KindId(c0)] + after, KindId(c0), after, t.members, rest);
  }

  /** One step of the compound loop's bytes: the member's type byte, its named payload, then the later members. */
  lemma MembersBytesStep(t: Tag, keys: seq<Str>, j: nat)
    requires t.CompoundTag? && WellFormed(t) && keys == KeyOrder.Order(t.members.Keys) && j < |keys|
    requires Encoded(t.members[keys[j]].value, Some(keys[j])).Ok? && MembersBytes(t, keys, j + 1).Ok?
    ensures MembersBytes(t, keys, j).Ok?
    ensures
      var c := t.members[keys[j]].value;
      MembersBytes(t, keys, j).value ==
        [KindId(c)] + Encoded(c, Some(keys[j])).value + MembersBytes(t, keys, j + 1).value
  {
    var c := t.members[keys[j]].value;
    var e := Encoded(c, Some(keys[j])).value;
    var es := MembersBytes(t, keys, j + 1).value;
    assert MembersBytes(t, keys, j) == Ok(EncodeSigned(KindId(c), 1) + e + es);
    WellFormedKind(c);
    SmallByteEncoding(KindId(c));
  }

  /**
   * The compound loop from the j-th key on, after its type byte has been
   * read: with the members of the earlier keys already collected in acc,
   * the parser collects exactly the compound's members and stops at the
   * closing 0.
   */
  lemma {:induction false} MembersRoundTrip(t: Tag, keys: seq<Str>, j: nat, acc: map<Str, Slot>, rest: seq<Byte>)
    requires t.CompoundTag? && WellFormed(t) && keys == KeyOrder.Order(t.members.Keys) && j < |keys|
    requires forall k :: k in acc <==> k in keys[..j]
    requires forall k :: k in acc ==> acc[k] == t.members[k]
    ensures MembersBytes(t, keys, j).Ok? && MembersBytes(t, keys, j + 1).Ok?
    ensures Encoded(t.members[keys[j]].value, Some(keys[j])).Ok?
    ensures
      var c := t.members[keys[j]].value;
      Members(Encoded(c, Some(keys[j])).value + MembersBytes(t, keys, j + 1).value + [0] + rest, KindId(c), acc) ==
        Ok(Read(t.members, rest))
    decreases t, 0, |keys| - j
  {
    var m := t.members;
    var k := keys[j];
    assert k in keys;
    assert k in m;
    assert m[k].Some?;
    var c := m[k].value;
    var acc' := acc[k := m[k]];
    AccStep(m, keys, j, acc, acc');
    if j + 1 == |keys| {
      MembersLast(t, keys, j, acc, rest);
    } else {
      MembersRoundTrip(t, keys, j + 1, acc', rest);
      MembersNext(t, keys, j, acc, rest);
    }
    MembersBytesStep(t, keys, j);
  }

  /**
   * A key that is not the last: its member is parsed and stored, the next
   * type byte is non-zero, and the loop goes on with the next key.
   */
  lemma MembersNext(t: Tag, keys: seq<Str>, j: nat, acc: map<Str, Slot>, rest: seq<Byte>)
    requires t.CompoundTag? && WellFormed(t) && keys == KeyOrder.Order(t.members.Keys) && j + 1 < |keys|
    requires MembersBytes(t, keys, j + 1).Ok?
    requires
      var c1 := t.members[keys[j + 1]].value;
      Encoded(c1, Some(keys[j + 1])).Ok? &&
      Members(Encoded(c1, Some(keys[j + 1])).value + MembersBytes(t, keys, j + 2).value + [0] + rest, KindId(c1),
              acc[keys[j] := t.members[keys[j]]]) == Ok(Read(t.members, rest))
    ensures Encoded(t.members[keys[j]].value, Some(keys[j])).Ok?
    ensures
      var c := t.members[keys[j]].value;
      Members(Encoded(c, Some(keys[j])).value + MembersBytes(t, keys, j + 1).value + [0] + rest, KindId(c), acc) ==
        Ok(Read(t.members, rest))
    decreases t, 0, 0
  {
    var m := t.members;
    var k := keys[j];
    var c := m[k].value;
    var ms1 := MembersBytes(t, keys, j + 1).value;
    var tail := ms1 + [0] + rest;
    TagByIdRoundTrip(c, Some(k), tail);
    var e := Encoded(c, Some(k)).value;
    var k1 := keys[j + 1];
    var c1 := m[k1].value;
    MembersBytesStep(t, keys, j + 1);
    WellFormedKind(c1);
    var e1 := Encoded(c1, Some(k1)).value;
    var ms2 := MembersBytes(t, keys, j + 2).value;
    var after := e1 + ms2 + [0] + rest;
    ConcatAssoc5([KindId(c1)], e1, ms2, [0], rest);
    ConcatAssoc4(e, ms1, [0], rest);
    MembersContinue(e + tail, KindId(c), acc, k, c, KindId(c1), after);
  }

  /** The last key of the compound loop: its member, then the closing 0. */
  lemma MembersLast(t: Tag, keys: seq<Str>, j: nat, acc: map<Str, Slot>, rest: seq<Byte>)
    requires t.CompoundTag? && WellFormed(t) && keys == KeyOrder.Order(t.members.Keys) && j + 1 == |keys|
    requires forall k :: k in acc <==> k in keys[..j]
    requires forall k :: k in acc ==> acc[k] == t.members[k]
    ensures Encoded(t.members[keys[j]].value, Some(keys[j])).Ok?
    ensures
      var c := t.members[keys[j]].value;
      Members(Encoded(c, Some(keys[j])).value + MembersBytes(t, keys, j + 1).value + [0] + rest, KindId(c), acc) ==
        Ok(Read(t.members, rest))
    decreases t, 0, 0
  {
    var m := t.members;
    var k := keys[j];
    var c := m[k].value;
    var tail := [0] + rest;
    TagByIdRoundTrip(c, Some(k), tail);
    var e := Encoded(c, Some(k)).value;
    var ms1 := MembersBytes(t, keys, j + 1).value;
    assert ms1 == [];
    ConcatAssoc4(e, ms1, [0], rest);
    assert ms1 + [0] == [0];
    MembersStop(e + tail, KindId(c), acc, k, c, rest);
    AccComplete(m, keys, j, acc);
  }

  /** The collected members plus the last key's are all of them. */
  lemma AccComplete(m: map<Str, Slot>, keys: seq<Str>, j: nat, acc: map<Str, Slot>)
    requires j + 1 == |keys| && forall x :: x in m <==> x in keys
    requires forall x :: x in acc <==> x in keys[..j]
    requires forall x :: x in acc ==> x in m && acc[x] == m[x]
    ensures acc[keys[j] := m[keys[j]]] == m
  {
    assert keys[..j] + [keys[j]] == keys;
  }

  /** Collecting the j-th key extends the collected prefix by one key. */
  lemma AccStep(m: map<Str, Slot>, keys: seq<Str>, j: nat, acc: map<Str, Slot>, next: map<Str, Slot>)
    requires j < |keys| && forall x :: x in m <==> x in keys
    requires forall x :: x in acc <==> x in keys[..j]
    requires forall x :: x in acc ==> x in m && acc[x] == m[x]
    requires next == acc[keys[j] := m[keys[j]]]
    ensures forall x :: x in next <==> x in keys[..j + 1]
    ensures forall x :: x in next ==> x in m && next[x] == m[x]
  {
    assert keys[..j + 1] == keys[..j] + [keys[j]];
  }
}
