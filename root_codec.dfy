// What getPayloadBytes of the root package (src/main/java/mryurihi/tbnbt/)
// produces, as pure functions of a tag value and the name field of its
// object.  Children of a compound carry their key as their name (put and
// the constructor rename them); children of a list carry none (add clears
// it).  The imperative buffer-filling of each class, in module RootTags, is
// proved to produce exactly these bytes.
module RootCodec {
  import opened Bytes
  import opened Tags
  import KeyOrder

  /**
   * new NBTTagString(v).getPayloadBytes() with no name: the constructor
   * refuses more than Short.MAX_VALUE characters; the buffer has room for
   * the 2-byte character count and one byte per character, so a string
   * whose encoding has more bytes than characters overflows it.
   */
  function StringBody(v: Str): (r: Result<seq<Byte>>)
    ensures r.Ok? <==> JavaLength(v) <= ShortMax && JavaLength(v) == |v|
    ensures r.Ok? ==> |r.value| == 2 + |v| && r.value[2..] == v
    ensures r.Err? ==> r.error == IllegalArgument || r.error == IndexOutOfBounds
  {
    if JavaLength(v) > ShortMax then Err(IllegalArgument)
    else if JavaLength(v) < |v| then Err(IndexOutOfBounds)
    else Ok(ShortBytes(JavaLength(v)) + v)
  }

  /**
   * The exceptions getPayloadBytes can throw: a null child, a string the
   * constructor's guard or the buffer refuses, a kind with no root class.
   */
  predicate PayloadError(e: Error)
  {
    e == NullPointer || e == IllegalArgument || e == IndexOutOfBounds || e == UnknownTagType
  }

  /** The bytes a name contributes: none for null, else its String payload. */
  function NameBytes(name: Option<Str>): (r: Result<seq<Byte>>)
    ensures name.None? ==> r == Ok([])
  {
    if name.None? then Ok([]) else StringBody(name.value)
  }

  /** Short and Compound write their name before their own bytes. */
  function NameFirst(name: Option<Str>, body: Result<seq<Byte>>): (r: Result<seq<Byte>>)
    ensures r.Ok? <==> NameBytes(name).Ok? && body.Ok?
    ensures r.Ok? ==> r.value == NameBytes(name).value + body.value
    ensures NameBytes(name).Err? ==> r == Err(NameBytes(name).error)
    ensures r.Err? ==> (NameBytes(name).Err? && r.error == NameBytes(name).error) || (body.Err? && r.error == body.error)
  {
    var n :- NameBytes(name);
    var b :- body;
    Ok(n + b)
  }

  /** String, ByteArray, IntArray and List build their bytes, then pass them through addName. */
  function NameLast(name: Option<Str>, body: Result<seq<Byte>>): (r: Result<seq<Byte>>)
    ensures r.Ok? <==> NameBytes(name).Ok? && body.Ok?
    ensures r.Ok? ==> r.value == NameBytes(name).value + body.value
    ensures body.Err? ==> r == Err(body.error)
    ensures r.Err? ==> (NameBytes(name).Err? && r.error == NameBytes(name).error) || (body.Err? && r.error == body.error)
  {
    var b :- body;
    var n :- NameBytes(name);
    Ok(n + b)
  }

  /** The classes that emit the name first. */
  predicate NamesFirst(t: Tag)
  {
    t.ByteTag? || t.ShortTag? || t.IntTag? || t.LongTag? || t.FloatTag? || t.DoubleTag? || t.CompoundTag?
  }

  /** getPayloadBytes of the object holding t, whose name field is name. */
  function Encoded(t: Tag, name: Option<Str>): (r: Result<seq<Byte>>)
    ensures r.Ok? ==> Body(t).Ok? && NameBytes(name).Ok? && r.value == NameBytes(name).value + Body(t).value
    ensures Body(t).Ok? && NameBytes(name).Ok? ==> r.Ok?
    ensures r.Err? ==> PayloadError(r.error)
    decreases t, 2
  {
    if NamesFirst(t) then NameFirst(name, Body(t)) else NameLast(name, Body(t))
  }

  /** getPayloadBytes of an unnamed object holding t. */
  function Body(t: Tag): (r: Result<seq<Byte>>)
    ensures r.Err? ==> PayloadError(r.error)
    ensures t.ListTag? && r.Ok? ==> |r.value| >= 5 && r.value[..5] == EncodeSigned(t.elemType, 1) + IntBytes(|t.elems|)
    ensures t.CompoundTag? && r.Ok? ==> |r.value| > 0 && r.value[|r.value| - 1] == 0
    decreases t, 1
  {
    match t
    case ListTag(id, elems) =>
      var es :- ElemsBytes(t, 0);
      Ok(EncodeSigned(id, 1) + IntBytes(|elems|) + es)
    case CompoundTag(m) =>
      var ms :- MembersBytes(t, KeyOrder.Order(m.Keys), 0);
      Ok(ms + [0])
    case _ => LeafBody(t)
  }

  /** The payload of a kind that holds no other tags. */
  function LeafBody(t: Tag): (r: Result<seq<Byte>>)
    requires !t.ListTag? && !t.CompoundTag?
    ensures r.Ok? <==> !t.LongArrayTag? && (t.StringTag? ==> StringBody(t.str).Ok?)
    ensures t.LongArrayTag? ==> r == Err(UnknownTagType)
    ensures r.Err? ==> PayloadError(r.error)
    ensures r.Ok? && t.ByteTag? ==> |r.value| == 1
    ensures r.Ok? && t.ShortTag? ==> |r.value| == 2
    ensures r.Ok? && t.IntTag? ==> |r.value| == 4
    ensures r.Ok? && t.LongTag? ==> |r.value| == 8
    ensures r.Ok? && t.ByteArrayTag? ==> |r.value| == 4 + |t.bytes| && SignedBytes(r.value[4..]) == t.bytes
    ensures r.Ok? && t.StringTag? ==> |r.value| == 2 + |t.str| && r.value[2..] == t.str
    ensures r.Ok? && t.IntArrayTag? ==> |r.value| == 4 + 4 * |t.ints|
  {
    match t
    case ByteTag(b) => Ok(EncodeSigned(b, 1))
    case ShortTag(v) => Ok(ShortBytes(v))
    case IntTag(v) => Ok(IntBytes(v))
    case LongTag(v) => Ok(LongBytes(v))
    case FloatTag(bits) => Ok(bits)
    case DoubleTag(bits) => Ok(bits)
    case ByteArrayTag(v) => Ok(IntBytes(|v|) + UnsignedBytes(v))
    case StringTag(v) => StringBody(v)
    case IntArrayTag(v) => Ok(IntBytes(|v|) + IntsBytes(v))
    case LongArrayTag(_) => Err(UnknownTagType)
  }

  /** The list loop from element i on: each element's unnamed payload; a null element fails. */
  function ElemsBytes(t: Tag, i: nat): (r: Result<seq<Byte>>)
    requires t.ListTag? && i <= |t.elems|
    ensures r.Err? ==> PayloadError(r.error)
    decreases t, 0, |t.elems| - i
  {
    if i == |t.elems| then Ok([])
    else if t.elems[i].None? then Err(NullPointer)
    else
      var e :- Encoded(t.elems[i].value, None);
      var es :- ElemsBytes(t, i + 1);
      Ok(e + es)
  }

  /**
   * The compound loop from the j-th key of the iteration order on: the
   * member's type byte, then its payload under its key; a null member fails.
   */
  function MembersBytes(t: Tag, keys: seq<Str>, j: nat): (r: Result<seq<Byte>>)
    requires t.CompoundTag? && j <= |keys|
    requires forall k :: k in keys ==> k in t.members
    ensures r.Err? ==> PayloadError(r.error)
    decreases t, 0, |keys| - j
  {
    if j == |keys| then Ok([])
    else if t.members[keys[j]].None? then Err(NullPointer)
    else
      var child := t.members[keys[j]].value;
      var e :- Encoded(child, Some(keys[j]));
      var es :- MembersBytes(t, keys, j + 1);
      Ok(EncodeSigned(KindId(child), 1) + e + es)
  }

  /** A compound's bytes, unfolded to its first member: type byte, named payload, the later members, the closing 0. */
  lemma CompoundBodyFirst(t: Tag, keys: seq<Str>)
    requires t.CompoundTag? && keys == KeyOrder.Order(t.members.Keys) && |keys| > 0
    requires t.members[keys[0]].Some?
    requires Encoded(t.members[keys[0]].value, Some(keys[0])).Ok? && MembersBytes(t, keys, 1).Ok?
    ensures Body(t).Ok?
    ensures
      var c := t.members[keys[0]].value;
      Body(t).value == EncodeSigned(KindId(c), 1) + Encoded(c, Some(keys[0])).value + MembersBytes(t, keys, 1).value + [0]
  {
  }

  /** The j-th element of a list is not null and writes unnamed. */
  predicate ElemWrites(t: Tag, j: nat)
    requires t.ListTag? && j < |t.elems|
  {
    t.elems[j].Some? && Encoded(t.elems[j].value, None).Ok?
  }

  /** The member under key k is not null and writes under its key. */
  predicate MemberWrites(t: Tag, k: Str)
    requires t.CompoundTag? && k in t.members
  {
    t.members[k].Some? && Encoded(t.members[k].value, Some(k)).Ok?
  }

  /** A list's elements from position i on write exactly when none is null and each writes unnamed. */
  lemma ElemsBytesOk(t: Tag, i: nat)
    requires t.ListTag? && i <= |t.elems|
    ensures ElemsBytes(t, i).Ok? <==> forall j :: i <= j < |t.elems| ==> ElemWrites(t, j)
  {
    var n := |t.elems|;
    var ok := seq(n + 1, j requires 0 <= j <= n => ElemsBytes(t, j).Ok?);
    var w := seq(n, j requires 0 <= j < n => ElemWrites(t, j));
    ElemsBytesSteps(t, ok, w);
    ChainAll(ok, w, i);
    assert forall j :: i <= j < n ==> w[j] == ElemWrites(t, j);
  }

  lemma ElemsBytesSteps(t: Tag, ok: seq<bool>, w: seq<bool>)
    requires t.ListTag? && |ok| == |t.elems| + 1 && |w| == |t.elems|
    requires forall j :: 0 <= j < |ok| ==> ok[j] == ElemsBytes(t, j).Ok?
    requires forall j :: 0 <= j < |w| ==> w[j] == ElemWrites(t, j)
    ensures StepsExact(ok, w)
  {
    forall j | 0 <= j < |w|
      ensures ok[j] == (w[j] && ok[j + 1])
    {
      ElemsBytesStep(t, j);
    }
  }

  lemma ElemsBytesStep(t: Tag, i: nat)
    requires t.ListTag? && i < |t.elems|
    ensures ElemsBytes(t, i).Ok? <==> ElemWrites(t, i) && ElemsBytes(t, i + 1).Ok?
  {
  }

  /** A compound's members from the j-th key on write exactly when none is null and each writes under its key. */
  lemma MembersBytesOk(t: Tag, keys: seq<Str>, j: nat)
    requires t.CompoundTag? && j <= |keys|
    requires forall k :: k in keys ==> k in t.members
    ensures MembersBytes(t, keys, j).Ok? <==> forall l :: j <= l < |keys| ==> MemberWrites(t, keys[l])
  {
    var n := |keys|;
    var ok := seq(n + 1, l requires 0 <= l <= n => MembersBytes(t, keys, l).Ok?);
    var w := seq(n, l requires 0 <= l < n => MemberWrites(t, keys[l]));
    MembersBytesSteps(t, keys, ok, w);
    ChainAll(ok, w, j);
    assert forall l :: j <= l < n ==> w[l] == MemberWrites(t, keys[l]);
  }

  lemma MembersBytesSteps(t: Tag, keys: seq<Str>, ok: seq<bool>, w: seq<bool>)
    requires t.CompoundTag? && |ok| == |keys| + 1 && |w| == |keys|
    requires forall k :: k in keys ==> k in t.members
    requires forall l :: 0 <= l < |ok| ==> ok[l] == MembersBytes(t, keys, l).Ok?
    requires forall l :: 0 <= l < |w| ==> w[l] == MemberWrites(t, keys[l])
    ensures StepsExact(ok, w)
  {
    forall l | 0 <= l < |w|
      ensures ok[l] == (w[l] && ok[l + 1])
    {
      MembersBytesStep(t, keys, l);
    }
  }

  lemma MembersBytesStep(t: Tag, keys: seq<Str>, j: nat)
    requires t.CompoundTag? && j < |keys|
    requires forall k :: k in keys ==> k in t.members
    ensures MembersBytes(t, keys, j).Ok? <==> MemberWrites(t, keys[j]) && MembersBytes(t, keys, j + 1).Ok?
  {
  }
}
