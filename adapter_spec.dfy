// What the adapters of package mryurihi.tbnbt.adapter.impl read and write,
// as functions over byte sequences: the byte and long adapters, the object
// adapter with its field-matching loop, the adapters the map and array
// factories create, and the registry's from*/write* convenience wrappers.
//
// A decoder returns the value or the exception it ended in, together with
// the bytes it left unread: an adapter that fails part-way has consumed
// what it read.  An encoder returns the bytes it wrote and the exception
// it ended in, if any.
module AdapterSpec {
  import opened Bytes
  import opened Tags
  import opened AdapterTypes
  import opened Resolution
  import KeyOrder
  import TagSpec

  /** A decoder's result and what it left unread. */
  type Outcome<T> = Read<Result<T>>

  /** The registry knows the classes its convenience wrappers name. */
  predicate Wf(env: Env)
  {
    Hierarchy(env.u) && BoxedByte in env.u && BoxedInteger in env.u && StringClass in env.u
  }

  /** Every field of a known class has a known type. */
  lemma FieldKnown(env: Env, token: Token, i: nat)
    requires Wf(env) && Known(env.u, token) && i < |env.u[token.raw].fields|
    ensures Known(env.u, env.u[token.raw].fields[i].ty)
  {
    assert env.u[token.raw].fields[i] in env.u[token.raw].fields;
  }

  /**
   * readByte (n = 1), readInt (4) or readLong (8) on the stream: a read
   * past the end fails with EOFException having consumed what was left.
   */
  function ReadIn(s: seq<Byte>, n: nat): (r: Read<Result<int>>)
    requires n >= 1
    ensures r.value.Ok? <==> n <= |s|
    ensures r.value.Ok? ==> ReadSigned(s, n) == Ok(Read(r.value.value, r.rest))
    ensures r.value.Err? ==> r.value.error == EndOfStream && r.rest == []
  {
    match ReadSigned(s, n)
    case Ok(rd) => Read(Ok(rd.value), rd.rest)
    case Err(e) => Read(Err(e), [])
  }

  /** A Java byte read off the wire. */
  function AsByte(v: int): (b: JByte)
    requires InSigned(v, 1)
    ensures b == v
  {
    WidthBounds();
    v
  }

  function AsInt(v: int): (i: JInt)
    requires InSigned(v, 4)
    ensures i == v
  {
    WidthBounds();
    v
  }

  function AsLong(v: int): (l: JLong)
    requires InSigned(v, 8)
    ensures l == v
  {
    WidthBounds();
    v
  }

  // ---------------------------------------------------------------------
  // The leaf adapters
  // ---------------------------------------------------------------------

  /**
   * fromNBT of the adapters that read a single value.  ByteAdapter and
   * LongAdapter throw unless the id is theirs, before reading anything,
   * then read one byte or eight; any exception becomes an
   * NBTParseException.  IntegerAdapter and StringAdapter are not part of
   * this model: they are taken to read as the parser reads an Int and a
   * String payload.  The other registered adapters are not modelled.
   */
  function LeafIn(k: AdapterClass, id: int, s: seq<Byte>): (r: Outcome<Value>)
    ensures |r.rest| <= |s| && (r.value.Ok? ==> |r.rest| < |s|)
  {
    match k
    case ByteAdapter =>
      if id != ByteId then Read(Err(ParseFailure), s)
      else
        var b := ReadIn(s, 1);
        if b.value.Err? then Read(Err(ParseFailure), b.rest) else Read(Ok(ByteV(AsByte(b.value.value))), b.rest)
    case LongAdapter =>
      if id != LongId then Read(Err(ParseFailure), s)
      else
        var l := ReadIn(s, 8);
        if l.value.Err? then Read(Err(ParseFailure), l.rest) else Read(Ok(LongV(AsLong(l.value.value))), l.rest)
    case IntegerAdapter =>
      if id != IntId then Read(Err(ParseFailure), s)
      else
        var i := ReadIn(s, 4);
        if i.value.Err? then Read(Err(ParseFailure), i.rest) else Read(Ok(IntV(AsInt(i.value.value))), i.rest)
    case StringAdapter =>
      if id != StringId then Read(Err(ParseFailure), s)
      else
        var len := ReadIn(s, 2);
        if len.value.Err? || len.value.value < 0 then Read(Err(ParseFailure), len.rest)
        else if |len.rest| < len.value.value then Read(Err(ParseFailure), [])
        else Read(Ok(StringV(len.rest[..len.value.value])), len.rest[len.value.value..])
    case _ => Read(Err(Unmodelled), s)
  }

  /** toNBT of the same adapters: the value cast to the adapter's type, then written; a failed cast writes nothing. */
  function LeafOut(k: AdapterClass, v: Value): (r: Emitted)
    ensures r.failure.Some? ==> r.bytes == [] && (r.failure.value == Unmodelled <==> !IsLeaf(k))
  {
    match k
    case ByteAdapter => if v.ByteV? then Emitted([UnsignedByte(v.b)], None) else Emitted([], Some(ParseFailure))
    case LongAdapter => if v.LongV? then Emitted(LongBytes(v.l), None) else Emitted([], Some(ParseFailure))
    case IntegerAdapter => if v.IntV? then Emitted(IntBytes(v.i), None) else Emitted([], Some(ParseFailure))
    case StringAdapter =>
      if v.StringV? && |v.s| <= ShortMax then Emitted(ShortBytes(|v.s|) + v.s, None)
      else Emitted([], Some(ParseFailure))
    case _ => Emitted([], Some(Unmodelled))
  }

  /**
   * What each leaf adapter's toNBT accepts and how many bytes it writes:
   * one for a Byte, four for an Integer, eight for a Long, and for a String
   * its 16-bit length followed by the string's own bytes.
   */
  lemma LeafOutShape(k: AdapterClass, v: Value)
    ensures k == ByteAdapter ==> (LeafOut(k, v).failure.None? <==> v.ByteV?) && (LeafOut(k, v).failure.None? ==> |LeafOut(k, v).bytes| == 1)
    ensures k == IntegerAdapter ==> (LeafOut(k, v).failure.None? <==> v.IntV?) && (LeafOut(k, v).failure.None? ==> |LeafOut(k, v).bytes| == 4)
    ensures k == LongAdapter ==> (LeafOut(k, v).failure.None? <==> v.LongV?) && (LeafOut(k, v).failure.None? ==> |LeafOut(k, v).bytes| == 8)
    ensures k == StringAdapter ==> (LeafOut(k, v).failure.None? <==> v.StringV? && |v.s| <= ShortMax)
    ensures k == StringAdapter && LeafOut(k, v).failure.None? ==>
      |LeafOut(k, v).bytes| == 2 + |v.s| && LeafOut(k, v).bytes[2..] == v.s
  {
  }

  /** The leaf adapters an object or a collection can be written and read through. */
  predicate IsLeaf(k: AdapterClass)
  {
    k in {ByteAdapter, IntegerAdapter, LongAdapter, StringAdapter}
  }

  // ---------------------------------------------------------------------
  // The registry's convenience wrappers
  // ---------------------------------------------------------------------

  /**
   * fromByte / fromInt / fromString: the registered adapter for cls, newly
   * instantiated, reads with the given id; any exception, and a value of
   * the wrong class, gives null.
   */
  function FromVia(env: Env, cls: ClassId, id: int, s: seq<Byte>): (r: Read<Option<Value>>)
    ensures |r.rest| <= |s| && (r.value.Some? ==> |r.rest| < |s|)
  {
    if cls !in env.registry || !Instantiable(env.registry[cls]) then Read(None, s)
    else
      var v := LeafIn(env.registry[cls], id, s);
      Read(if v.value.Ok? then Some(v.value.value) else None, v.rest)
  }

  function FromString(env: Env, s: seq<Byte>): (r: Read<Option<Str>>)
    ensures |r.rest| <= |s| && (r.value.Some? ==> |r.rest| < |s|)
  {
    var v := FromVia(env, StringClass, StringId, s);
    Read(if v.value.Some? && v.value.value.StringV? then Some(v.value.value.s) else None, v.rest)
  }

  function FromInt(env: Env, s: seq<Byte>): (r: Read<Option<JInt>>)
    ensures |r.rest| <= |s| && (r.value.Some? ==> |r.rest| < |s|)
  {
    var v := FromVia(env, BoxedInteger, IntId, s);
    Read(if v.value.Some? && v.value.value.IntV? then Some(v.value.value.i) else None, v.rest)
  }

  /** writeByte / writeInt / writeString: what the registered adapter writes; its exceptions are swallowed. */
  function WriteVia(env: Env, cls: ClassId, v: Value): (bytes: seq<Byte>)
    ensures bytes != [] ==> cls in env.registry && Instantiable(env.registry[cls]) && LeafOut(env.registry[cls], v).failure.None?
    ensures cls in env.registry && env.registry[cls] == ByteAdapter && v.ByteV? ==> |bytes| == 1
    ensures cls in env.registry && env.registry[cls] == IntegerAdapter && v.IntV? ==> |bytes| == 4
  {
    if cls !in env.registry || !Instantiable(env.registry[cls]) then []
    else LeafOut(env.registry[cls], v).bytes
  }

  // ---------------------------------------------------------------------
  // Field lookup
  // ---------------------------------------------------------------------

  /** getDeclaredField(name). */
  function ByName(fields: seq<Field>, name: Str): (r: Option<Field>)
    ensures r.Some? ==> r.value in fields && r.value.name == name
    ensures r.None? ==> forall f :: f in fields ==> f.name != name
  {
    if fields == [] then None
    else if fields[0].name == name then Some(fields[0])
    else ByName(fields[1..], name)
  }

  /** The last declared field whose @SerializedName value is name. */
  function LastSerialized(fields: seq<Field>, name: Str): (r: Option<Field>)
    ensures r.Some? ==> r.value in fields && r.value.serialized == Some(name)
    ensures r.None? ==> forall f :: f in fields ==> f.serialized != Some(name)
  {
    if fields == [] then None
    else if fields[|fields| - 1].serialized == Some(name) then Some(fields[|fields| - 1])
    else
      var r := LastSerialized(fields[..|fields| - 1], name);
      assert forall f :: f in fields ==> f == fields[|fields| - 1] || f in fields[..|fields| - 1];
      r
  }

  /** The field a name read off the wire selects: the field of that name, else the last one serialized under it. */
  function FindField(fields: seq<Field>, name: Str): (r: Option<Field>)
    ensures r.Some? ==> r.value in fields
    ensures r.None? <==> forall f :: f in fields ==> f.name != name && f.serialized != Some(name)
  {
    if ByName(fields, name).Some? then ByName(fields, name) else LastSerialized(fields, name)
  }

  /** The names of the declared fields. */
  function FieldNames(fields: seq<Field>): set<Str>
  {
    set f | f in fields :: f.name
  }

  /** A new instance of a class: each declared field holds its default value. */
  lemma DefaultsKeys(fields: seq<Field>)
    ensures Defaults(fields).Keys == FieldNames(fields)
  {
  }

  // ---------------------------------------------------------------------
  // Decoding
  // ---------------------------------------------------------------------

  predicate DecodeReady(env: Env, a: Adapter, token: Token)
  {
    Wf(env) && Known(env.u, token) && AdapterKnown(env.u, a)
  }

  /** adapter.fromNBT(id, payload, type, registry). */
  function Decode(env: Env, a: Adapter, id: int, s: seq<Byte>, token: Token): (r: Outcome<Value>)
    requires DecodeReady(env, a, token)
    ensures |r.rest| <= |s| && (r.value.Ok? ==> |r.rest| < |s|)
    decreases |s|, 3
  {
    match a
    case Instance(k) => if k == ObjectAdapter then ObjectIn(env, id, s, token) else LeafIn(k, id, s)
    case MapAdapter(item, c) => MapInFixed(env, item, c, s, token)
    case ArrayAdapter(content, c) => ArrayIn(env, content, c, s)
    case CollectionAdapter(_) => Read(Err(Unmodelled), s)
  }

  /**
   * ObjectAdapter.fromNBT: the id must be COMPOUND; a new instance of the
   * token's class is filled field by field.  Every exception after the id
   * check becomes an NBTParseException.
   */
  function ObjectIn(env: Env, id: int, s: seq<Byte>, token: Token): (r: Outcome<Value>)
    requires Wf(env) && Known(env.u, token)
    ensures |r.rest| <= |s| && (r.value.Ok? ==> |r.rest| < |s|)
    ensures r.value.Ok? ==> r.value.value.ObjectV? && r.value.value.fields.Keys == FieldNames(env.u[token.raw].fields)
    decreases |s|, 1
  {
    if id != CompoundId then Read(Err(ParseFailure), s)
    else if !env.u[token.raw].instantiable then Read(Err(ParseFailure), s)
    else
      var t := ReadIn(s, 1);
      if t.value.Err? then Read(Err(ParseFailure), t.rest)
      else
        DefaultsKeys(env.u[token.raw].fields);
        Fields(env, token, t.value.value, t.rest, Defaults(env.u[token.raw].fields))
  }

  /**
   * One pass of the field loop, with next the type byte already read: a
   * name, then the value of the field it selects, then the next type byte;
   * the loop ends after a type byte of 0.  A name that selects no field is
   * skipped without reading a value, and the loop goes on with the same
   * type byte.
   */
  function Fields(env: Env, token: Token, next: int, s: seq<Byte>, acc: map<Str, Value>): (r: Outcome<Value>)
    requires Wf(env) && Known(env.u, token)
    requires acc.Keys == FieldNames(env.u[token.raw].fields)
    ensures |r.rest| <= |s| && (r.value.Ok? ==> |r.rest| < |s|)
    ensures r.value.Ok? ==> r.value.value.ObjectV? && r.value.value.fields.Keys == FieldNames(env.u[token.raw].fields)
    decreases |s|, 5
  {
    var name := FromString(env, s);
    if name.value.None? then Read(Err(ParseFailure), name.rest)
    else
      var f := FindField(env.u[token.raw].fields, name.value.value);
      if f.None? then
        if next != 0 then Fields(env, token, next, name.rest, acc) else Read(Ok(ObjectV(acc)), name.rest)
      else FieldIn(env, token, f.value, next, name.rest, acc)
  }

  /** The value of the selected field, read through the adapter its type resolves to, then the next type byte. */
  function FieldIn(env: Env, token: Token, field: Field, next: int, s: seq<Byte>, acc: map<Str, Value>): (r: Outcome<Value>)
    requires Wf(env) && Known(env.u, token) && field in env.u[token.raw].fields
    requires acc.Keys == FieldNames(env.u[token.raw].fields)
    ensures |r.rest| <= |s| && (r.value.Ok? ==> |r.rest| < |s|)
    ensures r.value.Ok? ==> r.value.value.ObjectV? && r.value.value.fields.Keys == FieldNames(env.u[token.raw].fields)
    decreases |s|, 4
  {
    var adapter := Resolve(env, field.ty.raw, field.ty);
    var kind := TagSpec.TypeById(next);
    if adapter.Err? || adapter.value.None? || kind.Err? then Read(Err(ParseFailure), s)
    else
      var v := Decode(env, adapter.value.value, kind.value, s, field.ty);
      if v.value.Err? then Read(Err(Wrapped(v.value.error)), v.rest)
      else
        var t := ReadIn(v.rest, 1);
        var acc' := acc[field.name := v.value.value];
        if t.value.Err? then Read(Err(ParseFailure), t.rest)
        else if t.value.value == 0 then Read(Ok(ObjectV(acc')), t.rest)
        else Fields(env, token, t.value.value, t.rest, acc')
  }

  /**
   * The map adapter's fromNBT as written: the id is not checked; a new
   * instance of the token's class is filled entry by entry until a type
   * byte of 0, and then null is returned in place of it.
   */
  function MapIn(env: Env, item: Option<Adapter>, itemClass: ClassId, s: seq<Byte>, token: Token): (r: Outcome<Value>)
    requires Wf(env) && Known(env.u, token) && itemClass in env.u && (item.Some? ==> AdapterKnown(env.u, item.value))
    ensures |r.rest| <= |s| && (r.value.Ok? ==> |r.rest| < |s|)
    ensures r.value.Ok? ==> r.value.value == Null
  {
    var e := MapBody(env, item, itemClass, s, token);
    Read(if e.value.Ok? then Ok(Null) else Err(e.value.error), e.rest)
  }

  /** The map the map adapter's fromNBT builds before it returns. */
  function MapBody(env: Env, item: Option<Adapter>, itemClass: ClassId, s: seq<Byte>, token: Token): (r: Outcome<map<Str, Value>>)
    requires Wf(env) && Known(env.u, token) && itemClass in env.u && (item.Some? ==> AdapterKnown(env.u, item.value))
    ensures |r.rest| <= |s| && (r.value.Ok? ==> |r.rest| < |s|)
    ensures r.value.Err? ==> r.value.error == ParseFailure || r.value.error == Unmodelled
    decreases |s|, 1
  {
    if !env.u[token.raw].instantiable then Read(Err(ParseFailure), s)
    else
      var t := ReadIn(s, 1);
      if t.value.Err? then Read(Err(ParseFailure), t.rest)
      else Entries(env, item, itemClass, t.value.value, t.rest, map[])
  }

  /**
   * The map adapter's fromNBT as evidently intended: the map it filled.
   * The rest of the model decodes maps with this one.
   */
  function MapInFixed(env: Env, item: Option<Adapter>, itemClass: ClassId, s: seq<Byte>, token: Token): (r: Outcome<Value>)
    requires Wf(env) && Known(env.u, token) && itemClass in env.u && (item.Some? ==> AdapterKnown(env.u, item.value))
    ensures |r.rest| <= |s| && (r.value.Ok? ==> |r.rest| < |s|)
    ensures r.value.Ok? ==> r.value.value.MapV?
    decreases |s|, 2
  {
    var e := MapBody(env, item, itemClass, s, token);
    Read(if e.value.Ok? then Ok(MapV(e.value.value)) else Err(e.value.error), e.rest)
  }

  /**
   * One pass of the entry loop: a name, then a value read by the item
   * adapter with the kind of the type byte, put under that name; then the
   * next type byte.  A name the string adapter could not read (null) is
   * not kept.
   */
  function Entries(env: Env, item: Option<Adapter>, itemClass: ClassId, next: int, s: seq<Byte>, acc: map<Str, Value>): (r: Outcome<map<Str, Value>>)
    requires Wf(env) && itemClass in env.u && (item.Some? ==> AdapterKnown(env.u, item.value))
    ensures |r.rest| <= |s| && (r.value.Ok? ==> |r.rest| < |s|)
    ensures r.value.Err? ==> r.value.error == ParseFailure || r.value.error == Unmodelled
    decreases |s|, 4
  {
    var name := FromString(env, s);
    var kind := TagSpec.TypeById(next);
    if kind.Err? || item.None? then Read(Err(ParseFailure), name.rest)
    else
      var v := Decode(env, item.value, kind.value, name.rest, Plain(itemClass));
      if v.value.Err? then Read(Err(Wrapped(v.value.error)), v.rest)
      else
        var acc' := if name.value.Some? then acc[name.value.value := v.value.value] else acc;
        var t := ReadIn(v.rest, 1);
        if t.value.Err? then Read(Err(ParseFailure), t.rest)
        else if t.value.value == 0 then Read(Ok(acc'), t.rest)
        else Entries(env, item, itemClass, t.value.value, t.rest, acc')
  }

  /**
   * The array adapter's fromNBT: the id is not checked; the content kind
   * byte, the length through the registry's fromInt, then that many
   * elements read by the content adapter.  Every exception becomes an
   * NBTParseException.
   */
  function ArrayIn(env: Env, content: Option<Adapter>, contentClass: ClassId, s: seq<Byte>): (r: Outcome<Value>)
    requires Wf(env) && contentClass in env.u && (content.Some? ==> AdapterKnown(env.u, content.value))
    ensures |r.rest| <= |s| && (r.value.Ok? ==> |r.rest| < |s|)
    ensures r.value.Ok? ==> r.value.value.ArrayV?
    decreases |s|, 1
  {
    var t := ReadIn(s, 1);
    if t.value.Err? then Read(Err(ParseFailure), t.rest)
    else
      var kind := TagSpec.TypeById(t.value.value);
      if kind.Err? then Read(Err(ParseFailure), t.rest)
      else
        var n := FromInt(env, t.rest);
        if n.value.None? || n.value.value < 0 then Read(Err(ParseFailure), n.rest)
        else
          var es := Elems(env, content, contentClass, kind.value, n.rest, n.value.value);
          Read(if es.value.Ok? then Ok(ArrayV(es.value.value)) else Err(Wrapped(es.value.error)), es.rest)
  }

  /** n elements read by the content adapter, in order; with no content adapter only zero elements can be read. */
  function Elems(env: Env, content: Option<Adapter>, contentClass: ClassId, kind: int, s: seq<Byte>, n: nat): (r: Outcome<seq<Value>>)
    requires Wf(env) && contentClass in env.u && (content.Some? ==> AdapterKnown(env.u, content.value))
    ensures |r.rest| <= |s|
    ensures r.value.Ok? ==> |r.value.value| == n
    decreases |s|, 4, n
  {
    if n == 0 then Read(Ok([]), s)
    else if content.None? then Read(Err(NullPointer), s)
    else
      var e := Decode(env, content.value, kind, s, Plain(contentClass));
      if e.value.Err? then Read(Err(e.value.error), e.rest)
      else
        var more := Elems(env, content, contentClass, kind, e.rest, n - 1);
        if more.value.Err? then more else Read(Ok([e.value.value] + more.value.value), more.rest)
  }

  // ---------------------------------------------------------------------
  // Encoding
  // ---------------------------------------------------------------------

  /** The exceptions a toNBT can end with. */
  predicate ToNBTError(e: Error)
  {
    e == ParseFailure || e == Unmodelled || e == NullPointer || e == ClassCast
  }

  /** adapter.toNBT(out, object, type, registry). */
  function Encode(env: Env, a: Adapter, v: Value, token: Token): (r: Emitted)
    requires DecodeReady(env, a, token)
    ensures r.failure.Some? ==> ToNBTError(r.failure.value)
    ensures a.CollectionAdapter? ==> r.failure == Some(Unmodelled)
    decreases v, 2
  {
    match a
    case Instance(k) => if k == ObjectAdapter then ObjectOut(env, v, token) else LeafOut(k, v)
    case MapAdapter(item, c) => MapOut(env, item, c, v)
    case ArrayAdapter(content, c) => ArrayOut(env, content, c, v)
    case CollectionAdapter(_) => Emitted([], Some(Unmodelled))
  }

  /**
   * ObjectAdapter.toNBT: each declared field in turn, then a closing 0.
   * Any exception becomes an NBTParseException.
   */
  function ObjectOut(env: Env, v: Value, token: Token): (r: Emitted)
    requires Wf(env) && Known(env.u, token)
    ensures r.failure.Some? ==> r.failure.value == ParseFailure || r.failure.value == Unmodelled
    decreases v, 1
  {
    var body := FieldsOut(env, v, token, 0);
    if body.failure.Some? then Emitted(body.bytes, Some(Wrapped(body.failure.value))) else Emitted(body.bytes + [0], None)
  }

  /**
   * The fields from position i on: the id of the adapter the field's type
   * resolves to, the field's wire name through the registry's writeString,
   * then the field's value through that adapter.  A value that is not an
   * object of the class has no field to get, and fails after the name.
   */
  function FieldsOut(env: Env, v: Value, token: Token, i: nat): (r: Emitted)
    requires Wf(env) && Known(env.u, token)
    ensures r.failure.Some? ==> ToNBTError(r.failure.value)
    decreases v, 0, |env.u[token.raw].fields| - i
  {
    var fields := env.u[token.raw].fields;
    if i >= |fields| then Emitted([], None)
    else
      var f := fields[i];
      FieldKnown(env, token, i);
      var adapter := Resolve(env, f.ty.raw, f.ty);
      if adapter.Err? || adapter.value.None? then Emitted([], Some(ParseFailure))
      else
        var a := adapter.value.value;
        var head := EncodeSigned(GetId(a), 1) + WriteVia(env, StringClass, StringV(WireName(f)));
        if !(v.ObjectV? && f.name in v.fields) then Emitted(head, Some(ParseFailure))
        else
          var value := Encode(env, a, v.fields[f.name], f.ty);
          if value.failure.Some? then Emitted(head + value.bytes, value.failure)
          else Then(Emitted(head + value.bytes, None), FieldsOut(env, v, token, i + 1))
  }

  /**
   * The map adapter's toNBT: each entry in the map's iteration order, then
   * a 0 through the registry's writeByte.  Its exceptions are not caught: a
   * value that is not a map fails the cast, a null one fails on entrySet.
   */
  function MapOut(env: Env, item: Option<Adapter>, itemClass: ClassId, v: Value): (r: Emitted)
    requires Wf(env) && itemClass in env.u && (item.Some? ==> AdapterKnown(env.u, item.value))
    ensures r.failure.Some? ==> ToNBTError(r.failure.value)
    ensures v.Null? ==> r == Emitted([], Some(NullPointer))
    ensures !v.Null? && !v.MapV? ==> r == Emitted([], Some(ClassCast))
    ensures r.failure.None? ==> v.MapV? && (v.entries != map[] ==> item.Some?)
    decreases v, 1
  {
    if v.Null? then Emitted([], Some(NullPointer))
    else if !v.MapV? then Emitted([], Some(ClassCast))
    else
      var body := EntriesOut(env, item, itemClass, v, KeyOrder.Order(v.entries.Keys), 0);
      if body.failure.Some? then body else Emitted(body.bytes + WriteVia(env, BoxedByte, ByteV(0)), None)
  }

  /** The entries from position i of the iteration order on: the item adapter's id, the key, the value. */
  function EntriesOut(env: Env, item: Option<Adapter>, itemClass: ClassId, v: Value, keys: seq<Str>, i: nat): (r: Emitted)
    requires Wf(env) && itemClass in env.u && (item.Some? ==> AdapterKnown(env.u, item.value))
    requires v.MapV? && forall k :: k in keys ==> k in v.entries
    ensures r.failure.Some? ==> ToNBTError(r.failure.value)
    decreases v, 0, |keys| - i
  {
    if i >= |keys| then Emitted([], None)
    else if item.None? then Emitted([], Some(NullPointer))
    else
      var head := WriteVia(env, BoxedByte, ByteV(ToJByte(GetId(item.value)))) + WriteVia(env, StringClass, StringV(keys[i]));
      var value := Encode(env, item.value, v.entries[keys[i]], Plain(itemClass));
      if value.failure.Some? then Emitted(head + value.bytes, value.failure)
      else Then(Emitted(head + value.bytes, None), EntriesOut(env, item, itemClass, v, keys, i + 1))
  }

  /**
   * The array adapter's toNBT: the content adapter's id through writeByte,
   * the length through writeInt, then each element.  Any exception becomes
   * an NBTParseException; a null array fails after the id.
   */
  function ArrayOut(env: Env, content: Option<Adapter>, contentClass: ClassId, v: Value): (r: Emitted)
    requires Wf(env) && contentClass in env.u && (content.Some? ==> AdapterKnown(env.u, content.value))
    ensures r.failure.Some? ==> r.failure.value == ParseFailure || r.failure.value == Unmodelled
    decreases v, 1
  {
    if !(v.Null? || v.ArrayV?) || content.None? then Emitted([], Some(ParseFailure))
    else
      var head := WriteVia(env, BoxedByte, ByteV(ToJByte(GetId(content.value))));
      if v.Null? then Emitted(head, Some(ParseFailure))
      else
        var count := WriteVia(env, BoxedInteger, IntV(ToJInt(|v.elems|)));
        var body := ElemsOut(env, content.value, contentClass, v, 0);
        Emitted(head + count + body.bytes, if body.failure.Some? then Some(Wrapped(body.failure.value)) else None)
  }

  /** The elements from position i on, each through the content adapter. */
  function ElemsOut(env: Env, content: Adapter, contentClass: ClassId, v: Value, i: nat): (r: Emitted)
    requires Wf(env) && contentClass in env.u && AdapterKnown(env.u, content)
    requires v.ArrayV?
    ensures r.failure.Some? ==> ToNBTError(r.failure.value)
    decreases v, 0, |v.elems| - i
  {
    if i >= |v.elems| then Emitted([], None)
    else Then(Encode(env, content, v.elems[i], Plain(contentClass)), ElemsOut(env, content, contentClass, v, i + 1))
  }

  /** The fields write only when the value is an object holding every declared field from position i on. */
  lemma FieldsOutNeedsFields(env: Env, v: Value, token: Token, i: nat)
    requires Wf(env) && Known(env.u, token)
    ensures FieldsOut(env, v, token, i).failure.None? && i < |env.u[token.raw].fields| ==>
      v.ObjectV? && forall j :: i <= j < |env.u[token.raw].fields| ==> env.u[token.raw].fields[j].name in v.fields
  {
    var fields := env.u[token.raw].fields;
    var n := |fields|;
    if i < n {
      var ok := seq(n + 1, j requires 0 <= j <= n => FieldsOut(env, v, token, j).failure.None?);
      var w := seq(n, j requires 0 <= j < n => v.ObjectV? && fields[j].name in v.fields);
      FieldsOutSteps(env, v, token, ok, w);
      ChainHead(ok, w, i);
      assert ok[i] ==> w[i];
      assert forall j :: i <= j < n ==> w[j] == (v.ObjectV? && fields[j].name in v.fields);
    }
  }

  lemma FieldsOutSteps(env: Env, v: Value, token: Token, ok: seq<bool>, w: seq<bool>)
    requires Wf(env) && Known(env.u, token)
    requires |ok| == |env.u[token.raw].fields| + 1 && |w| == |env.u[token.raw].fields|
    requires forall j :: 0 <= j < |ok| ==> ok[j] == FieldsOut(env, v, token, j).failure.None?
    requires forall j :: 0 <= j < |w| ==> w[j] == (v.ObjectV? && env.u[token.raw].fields[j].name in v.fields)
    ensures StepsNeed(ok, w)
  {
    forall j | 0 <= j < |w|
      ensures ok[j] ==> w[j] && ok[j + 1]
    {
      FieldsOutStep(env, v, token, j);
    }
  }

  lemma FieldsOutStep(env: Env, v: Value, token: Token, j: nat)
    requires Wf(env) && Known(env.u, token) && j < |env.u[token.raw].fields|
    ensures FieldsOut(env, v, token, j).failure.None? ==>
      v.ObjectV? && env.u[token.raw].fields[j].name in v.fields && FieldsOut(env, v, token, j + 1).failure.None?
  {
  }

  /** The entries write only when there is an item adapter and each value from position i on writes through it. */
  lemma EntriesOutNeedsItems(env: Env, item: Option<Adapter>, itemClass: ClassId, v: Value, keys: seq<Str>, i: nat)
    requires Wf(env) && itemClass in env.u && (item.Some? ==> AdapterKnown(env.u, item.value))
    requires v.MapV? && forall k :: k in keys ==> k in v.entries
    ensures EntriesOut(env, item, itemClass, v, keys, i).failure.None? && i < |keys| ==>
      item.Some? && forall l :: i <= l < |keys| ==> Encode(env, item.value, v.entries[keys[l]], Plain(itemClass)).failure.None?
  {
    var n := |keys|;
    if i < n && item.Some? {
      var ok := seq(n + 1, l requires 0 <= l <= n => EntriesOut(env, item, itemClass, v, keys, l).failure.None?);
      var w := seq(n, l requires 0 <= l < n => EntryWrites(env, item.value, itemClass, v, keys[l]));
      EntriesOutSteps(env, item, itemClass, v, keys, ok, w);
      ChainHead(ok, w, i);
      assert forall l :: i <= l < n ==> w[l] == EntryWrites(env, item.value, itemClass, v, keys[l]);
    }
  }

  /** The value stored under key k writes through the item adapter. */
  predicate EntryWrites(env: Env, item: Adapter, itemClass: ClassId, v: Value, k: Str)
    requires Wf(env) && itemClass in env.u && AdapterKnown(env.u, item)
    requires v.MapV? && k in v.entries
  {
    Encode(env, item, v.entries[k], Plain(itemClass)).failure.None?
  }

  lemma EntriesOutSteps(env: Env, item: Option<Adapter>, itemClass: ClassId, v: Value, keys: seq<Str>, ok: seq<bool>, w: seq<bool>)
    requires Wf(env) && itemClass in env.u && item.Some? && AdapterKnown(env.u, item.value)
    requires v.MapV? && forall k :: k in keys ==> k in v.entries
    requires |ok| == |keys| + 1 && |w| == |keys|
    requires forall l :: 0 <= l < |ok| ==> ok[l] == EntriesOut(env, item, itemClass, v, keys, l).failure.None?
    requires forall l :: 0 <= l < |w| ==> w[l] == EntryWrites(env, item.value, itemClass, v, keys[l])
    ensures StepsNeed(ok, w)
  {
    forall l | 0 <= l < |w|
      ensures ok[l] ==> w[l] && ok[l + 1]
    {
      EntriesOutStep(env, item, itemClass, v, keys, l);
    }
  }

  lemma EntriesOutStep(env: Env, item: Option<Adapter>, itemClass: ClassId, v: Value, keys: seq<Str>, l: nat)
    requires Wf(env) && itemClass in env.u && item.Some? && AdapterKnown(env.u, item.value)
    requires v.MapV? && (forall k :: k in keys ==> k in v.entries) && l < |keys|
    ensures EntriesOut(env, item, itemClass, v, keys, l).failure.None? ==>
      EntryWrites(env, item.value, itemClass, v, keys[l]) && EntriesOut(env, item, itemClass, v, keys, l + 1).failure.None?
  {
  }

  /** The elements from position i on write exactly when each of them writes through the content adapter. */
  lemma ElemsOutSucceeds(env: Env, content: Adapter, contentClass: ClassId, v: Value, i: nat)
    requires Wf(env) && contentClass in env.u && AdapterKnown(env.u, content)
    requires v.ArrayV?
    ensures ElemsOut(env, content, contentClass, v, i).failure.None? <==>
      forall j :: i <= j < |v.elems| ==> Encode(env, content, v.elems[j], Plain(contentClass)).failure.None?
  {
    var n := |v.elems|;
    if i < n {
      var ok := seq(n + 1, j requires 0 <= j <= n => ElemsOut(env, content, contentClass, v, j).failure.None?);
      var w := seq(n, j requires 0 <= j < n => Encode(env, content, v.elems[j], Plain(contentClass)).failure.None?);
      ElemsOutSteps(env, content, contentClass, v, ok, w);
      ChainAll(ok, w, i);
      assert ok[i] == ElemsOut(env, content, contentClass, v, i).failure.None?;
      assert forall j :: i <= j < n ==> w[j] == Encode(env, content, v.elems[j], Plain(contentClass)).failure.None?;
    }
  }

  lemma ElemsOutSteps(env: Env, content: Adapter, contentClass: ClassId, v: Value, ok: seq<bool>, w: seq<bool>)
    requires Wf(env) && contentClass in env.u && AdapterKnown(env.u, content)
    requires v.ArrayV? && |ok| == |v.elems| + 1 && |w| == |v.elems|
    requires forall j :: 0 <= j < |ok| ==> ok[j] == ElemsOut(env, content, contentClass, v, j).failure.None?
    requires forall j :: 0 <= j < |w| ==> w[j] == Encode(env, content, v.elems[j], Plain(contentClass)).failure.None?
    ensures StepsExact(ok, w)
  {
    forall j | 0 <= j < |w|
      ensures ok[j] == (w[j] && ok[j + 1])
    {
      ElemsOutStep(env, content, contentClass, v, j);
    }
  }

  lemma ElemsOutStep(env: Env, content: Adapter, contentClass: ClassId, v: Value, j: nat)
    requires Wf(env) && contentClass in env.u && AdapterKnown(env.u, content)
    requires v.ArrayV? && j < |v.elems|
    ensures ElemsOut(env, content, contentClass, v, j).failure.None? <==>
      Encode(env, content, v.elems[j], Plain(contentClass)).failure.None? && ElemsOut(env, content, contentClass, v, j + 1).failure.None?
  {
  }
}
