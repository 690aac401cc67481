// What the adapters read back of what they wrote.  The leaf adapters
// round-trip every value of their kind; an object whose fields all go
// through leaf adapters round-trips as long as it has at least one field
// and every wire name selects its own field again; an array of leaf values
// round-trips whatever its length; a non-empty map of leaf values comes back
// through the corrected map decoder, and as null through the decoder as
// written.
module AdapterRoundTrip {
  import opened Bytes
  import opened Tags
  import opened AdapterTypes
  import opened Resolution
  import opened AdapterSpec
  import KeyOrder
  import TagSpec
  import ParserFacts

  /** v is a value of the kind the leaf adapter k writes, and short enough to be written. */
  predicate Fits(k: AdapterClass, v: Value)
  {
    match k
    case ByteAdapter => v.ByteV?
    case IntegerAdapter => v.IntV?
    case LongAdapter => v.LongV?
    case StringAdapter => v.StringV? && |v.s| <= ShortMax
    case _ => false
  }

  lemma ShortReads(n: int, tail: seq<Byte>)
    requires 0 <= n <= ShortMax
    ensures ReadSigned(ShortBytes(n) + tail, 2) == Ok(Read(n, tail))
  {
    ReadSignedEncoded(n, 2, tail);
    WidthBounds();
  }

  lemma ByteRoundTrip(b: JByte, rest: seq<Byte>)
    ensures LeafIn(ByteAdapter, ByteId, LeafOut(ByteAdapter, ByteV(b)).bytes + rest) == Read(Ok(ByteV(b)), rest)
  {
    WidthBounds();
    ReadSignedEncoded(b, 1, rest);
  }

  lemma IntRoundTrip(i: JInt, rest: seq<Byte>)
    ensures LeafIn(IntegerAdapter, IntId, LeafOut(IntegerAdapter, IntV(i)).bytes + rest) == Read(Ok(IntV(i)), rest)
  {
    WidthBounds();
    ReadSignedEncoded(i, 4, rest);
  }

  lemma LongRoundTrip(l: JLong, rest: seq<Byte>)
    ensures LeafIn(LongAdapter, LongId, LeafOut(LongAdapter, LongV(l)).bytes + rest) == Read(Ok(LongV(l)), rest)
  {
    WidthBounds();
    ReadSignedEncoded(l, 8, rest);
  }

  lemma StringRoundTrip(s: Str, rest: seq<Byte>)
    requires |s| <= ShortMax
    ensures LeafIn(StringAdapter, StringId, LeafOut(StringAdapter, StringV(s)).bytes + rest) == Read(Ok(StringV(s)), rest)
  {
    var after := s + rest;
    ShortReads(|s|, after);
    assert ShortBytes(|s|) + s + rest == ShortBytes(|s|) + after;
    assert after[..|s|] == s && after[|s|..] == rest;
  }

  /**
   * A leaf adapter writes exactly the values of its kind, and reads back,
   * with its own id, the value it wrote, leaving what follows.
   */
  lemma LeafRoundTrip(k: AdapterClass, v: Value, rest: seq<Byte>)
    requires IsLeaf(k)
    ensures LeafOut(k, v).failure.None? <==> Fits(k, v)
    ensures Fits(k, v) ==> LeafIn(k, GetId(Instance(k)), LeafOut(k, v).bytes + rest) == Read(Ok(v), rest)
  {
    if Fits(k, v) {
      match k
      case ByteAdapter => ByteRoundTrip(v.b, rest);
      case IntegerAdapter => IntRoundTrip(v.i, rest);
      case LongAdapter => LongRoundTrip(v.l, rest);
      case StringAdapter => StringRoundTrip(v.s, rest);
    }
  }

  /** A leaf adapter handed any other id throws before it reads a byte. */
  lemma LeafChecksId(k: AdapterClass, id: int, s: seq<Byte>)
    requires IsLeaf(k) && id != GetId(Instance(k))
    ensures LeafIn(k, id, s) == Read(Err(ParseFailure), s)
  {
  }

  /** A leaf adapter's id is a single non-zero byte on the wire. */
  lemma LeafId(k: AdapterClass, rest: seq<Byte>)
    requires IsLeaf(k)
    ensures 0 < GetId(Instance(k)) < 0x80
    ensures EncodeSigned(GetId(Instance(k)), 1) == [GetId(Instance(k))]
    ensures ReadIn([GetId(Instance(k))] + rest, 1) == Read(Ok(GetId(Instance(k))), rest)
    ensures TagSpec.TypeById(GetId(Instance(k))) == Ok(GetId(Instance(k)))
  {
    SmallByteEncoding(GetId(Instance(k)));
    ParserFacts.SmallByteReads(GetId(Instance(k)), rest);
  }

  // ---------------------------------------------------------------------
  // The registry's wrappers over the default entries
  // ---------------------------------------------------------------------

  /** The registry's String, Byte and Integer entries are the default ones. */
  predicate DefaultLeaves(env: Env)
  {
    && StringClass in env.registry && env.registry[StringClass] == StringAdapter
    && BoxedByte in env.registry && env.registry[BoxedByte] == ByteAdapter
    && BoxedInteger in env.registry && env.registry[BoxedInteger] == IntegerAdapter
  }

  lemma DefaultRegistryLeaves(u: Universe)
    ensures DefaultLeaves(Env(DefaultRegistry(), DefaultFactories(), u))
  {
    DefaultRegistryPositional();
    DefaultLookups();
  }

  /** writeString then fromString gives the string back. */
  lemma NameRoundTrip(env: Env, w: Str, tail: seq<Byte>)
    requires DefaultLeaves(env) && |w| <= ShortMax
    ensures WriteVia(env, StringClass, StringV(w)) == ShortBytes(|w|) + w
    ensures FromString(env, ShortBytes(|w|) + w + tail) == Read(Some(w), tail)
  {
    StringRoundTrip(w, tail);
  }

  /** writeByte of a small non-negative value is that one byte. */
  lemma SmallByteVia(env: Env, b: int)
    requires DefaultLeaves(env) && 0 <= b < 0x80
    ensures ToJByte(b) == b
    ensures WriteVia(env, BoxedByte, ByteV(ToJByte(b))) == [b]
  {
    WidthBounds();
    SmallByteEncoding(b);
  }

  /** writeInt then fromInt gives the int back. */
  lemma IntVia(env: Env, n: JInt, tail: seq<Byte>)
    requires DefaultLeaves(env)
    ensures WriteVia(env, BoxedInteger, IntV(n)) == IntBytes(n)
    ensures FromInt(env, IntBytes(n) + tail) == Read(Some(n), tail)
  {
    IntRoundTrip(n, tail);
  }

  // ---------------------------------------------------------------------
  // Objects
  // ---------------------------------------------------------------------

  /**
   * Class c is handled by the leaf adapter k: as a primitive the registry
   * maps to k before anything else, or as a class the registry maps to k.
   */
  predicate LeafClass(env: Env, c: ClassId, k: AdapterClass)
  {
    IsLeaf(k) && (FixedPrimitive(c) == Some(k) || (FixedPrimitive(c).None? && c in env.registry && env.registry[c] == k))
  }

  /** The adapter for a field of a class handled by a leaf adapter is a new instance of it. */
  lemma LeafClassResolves(env: Env, t: Token, k: AdapterClass)
    requires Hierarchy(env.u) && Known(env.u, t) && LeafClass(env, t.raw, k)
    ensures Resolve(env, t.raw, t) == Ok(Some(Instance(k)))
  {
  }

  /**
   * The i-th field of fs goes through the leaf adapter k, its wire name
   * selects it again, and m holds a value for it that k writes.
   */
  predicate LeafField(env: Env, fs: seq<Field>, i: nat, k: AdapterClass, m: map<Str, Value>)
    requires i < |fs|
  {
    && LeafClass(env, fs[i].ty.raw, k)
    && |WireName(fs[i])| <= ShortMax
    && fs[i].name in m && Fits(k, m[fs[i].name])
  }

  /** The wire name of the i-th field of fs selects it again. */
  predicate Selects(fs: seq<Field>, i: nat)
    requires i < |fs|
  {
    FindField(fs, WireName(fs[i])) == Some(fs[i])
  }

  /** Every field from position i on is such a field, the j-th through ks[j]. */
  predicate LeafFieldsFrom(env: Env, fs: seq<Field>, ks: seq<AdapterClass>, m: map<Str, Value>, i: nat)
    requires |ks| == |fs|
    decreases |fs| - i
  {
    i >= |fs| || (LeafField(env, fs, i, ks[i], m) && Selects(fs, i) && LeafFieldsFrom(env, fs, ks, m, i + 1))
  }

  /** The registry has its default leaf entries, and v is an object of the class of token whose fields from position i on are leaf fields. */
  predicate LeafObjectFrom(env: Env, token: Token, ks: seq<AdapterClass>, v: Value, i: nat)
  {
    && Wf(env) && Known(env.u, token) && DefaultLeaves(env)
    && |env.u[token.raw].fields| == |ks|
    && v.ObjectV? && v.fields.Keys == FieldNames(env.u[token.raw].fields)
    && LeafFieldsFrom(env, env.u[token.raw].fields, ks, v.fields, i)
  }

  /**
   * An object the object adapter writes and reads back: its class can be
   * instantiated and has at least one field, and every field is a leaf
   * field, the i-th through ks[i].
   */
  predicate LeafObject(env: Env, token: Token, ks: seq<AdapterClass>, v: Value)
  {
    LeafObjectFrom(env, token, ks, v, 0) && env.u[token.raw].instantiable && |ks| > 0
  }

  lemma LeafFieldsNext(env: Env, fs: seq<Field>, ks: seq<AdapterClass>, m: map<Str, Value>, i: nat)
    requires |ks| == |fs| && i < |fs| && LeafFieldsFrom(env, fs, ks, m, i)
    ensures LeafField(env, fs, i, ks[i], m) && Selects(fs, i) && LeafFieldsFrom(env, fs, ks, m, i + 1)
  {
  }

  /**
   * A named value as the object adapter and the map adapter write it: the
   * leaf adapter's id, the name, the value.
   */
  function FieldBytes(k: AdapterClass, name: Str, x: Value): seq<Byte>
  {
    EncodeSigned(GetId(Instance(k)), 1) + (ShortBytes(|name|) + name + LeafOut(k, x).bytes)
  }

  /** The fields from position i on, as written, in declaration order. */
  function Wire(ks: seq<AdapterClass>, fs: seq<Field>, m: map<Str, Value>, i: nat): seq<Byte>
    requires |ks| == |fs|
    decreases |fs| - i
  {
    if i >= |fs| then []
    else FieldBytes(ks[i], WireName(fs[i]), if fs[i].name in m then m[fs[i].name] else Null) + Wire(ks, fs, m, i + 1)
  }

  /** A field's value written by its leaf adapter. */
  lemma FieldValueOut(env: Env, f: Field, k: AdapterClass, x: Value)
    requires Hierarchy(env.u) && Known(env.u, f.ty) && LeafClass(env, f.ty.raw, k) && Fits(k, x)
    ensures Resolve(env, f.ty.raw, f.ty) == Ok(Some(Instance(k)))
    ensures DecodeReady(env, Instance(k), f.ty) ==> Encode(env, Instance(k), x, f.ty) == Emitted(LeafOut(k, x).bytes, None)
  {
    LeafClassResolves(env, f.ty, k);
    LeafRoundTrip(k, x, []);
  }

  /** ObjectAdapter.toNBT on a field whose adapter writes value without an exception. */
  lemma FieldsOutUnfold(env: Env, token: Token, v: Value, i: nat, a: Adapter, head: seq<Byte>, value: seq<Byte>)
    requires Wf(env) && Known(env.u, token)
    requires i < |env.u[token.raw].fields| && v.ObjectV? && env.u[token.raw].fields[i].name in v.fields
    requires Resolve(env, env.u[token.raw].fields[i].ty.raw, env.u[token.raw].fields[i].ty) == Ok(Some(a))
    requires head == EncodeSigned(GetId(a), 1) + WriteVia(env, StringClass, StringV(WireName(env.u[token.raw].fields[i])))
    requires DecodeReady(env, a, env.u[token.raw].fields[i].ty)
    requires Encode(env, a, v.fields[env.u[token.raw].fields[i].name], env.u[token.raw].fields[i].ty) == Emitted(value, None)
    ensures FieldsOut(env, v, token, i) == Then(Emitted(head + value, None), FieldsOut(env, v, token, i + 1))
  {
  }

  /** One field written: its id, name and value, then the fields after it. */
  lemma FieldOutStep(env: Env, token: Token, v: Value, i: nat, k: AdapterClass)
    requires Wf(env) && Known(env.u, token) && DefaultLeaves(env)
    requires i < |env.u[token.raw].fields| && v.ObjectV?
    requires LeafField(env, env.u[token.raw].fields, i, k, v.fields)
    ensures FieldsOut(env, v, token, i) ==
      Then(Emitted(FieldBytes(k, WireName(env.u[token.raw].fields[i]), v.fields[env.u[token.raw].fields[i].name]), None),
           FieldsOut(env, v, token, i + 1))
  {
    var f := env.u[token.raw].fields[i];
    var x := v.fields[f.name];
    FieldKnown(env, token, i);
    FieldValueOut(env, f, k, x);
    FieldBytesSplit(env, k, WireName(f), x);
    FieldsOutUnfold(env, token, v, i, Instance(k),
      EncodeSigned(GetId(Instance(k)), 1) + WriteVia(env, StringClass, StringV(WireName(f))), LeafOut(k, x).bytes);
  }

  /** FieldBytes is the id, then the name as the registry's writeString writes it, then the value. */
  lemma FieldBytesSplit(env: Env, k: AdapterClass, name: Str, x: Value)
    requires DefaultLeaves(env) && |name| <= ShortMax
    ensures FieldBytes(k, name, x) == EncodeSigned(GetId(Instance(k)), 1) + WriteVia(env, StringClass, StringV(name)) + LeafOut(k, x).bytes
  {
    NameRoundTrip(env, name, []);
  }

  /** The fields from position i on, as ObjectAdapter.toNBT writes them, succeed and lay out one after the other. */
  lemma {:induction false} FieldsOutWire(env: Env, token: Token, ks: seq<AdapterClass>, v: Value, i: nat)
    requires LeafObjectFrom(env, token, ks, v, i) && i <= |ks|
    ensures FieldsOut(env, v, token, i) == Emitted(Wire(ks, env.u[token.raw].fields, v.fields, i), None)
    decreases |ks| - i
  {
    var fs := env.u[token.raw].fields;
    if i < |ks| {
      LeafFieldsNext(env, fs, ks, v.fields, i);
      var head := FieldBytes(ks[i], WireName(fs[i]), v.fields[fs[i].name]);
      FieldOutStep(env, token, v, i, ks[i]);
      FieldsOutWire(env, token, ks, v, i + 1);
      assert Wire(ks, fs, v.fields, i) == head + Wire(ks, fs, v.fields, i + 1);
      assert FieldsOut(env, v, token, i) == Then(Emitted(head, None), Emitted(Wire(ks, fs, v.fields, i + 1), None));
    }
  }

  /** A wire name that selects field f hands the value that follows to f's adapter. */
  lemma FieldsNameStep(env: Env, token: Token, next: int, f: Field, s: seq<Byte>, acc: map<Str, Value>)
    requires Wf(env) && Known(env.u, token) && DefaultLeaves(env)
    requires acc.Keys == FieldNames(env.u[token.raw].fields)
    requires |WireName(f)| <= ShortMax && FindField(env.u[token.raw].fields, WireName(f)) == Some(f)
    ensures f in env.u[token.raw].fields
    ensures Fields(env, token, next, ShortBytes(|WireName(f)|) + WireName(f) + s, acc) == FieldIn(env, token, f, next, s, acc)
  {
    NameRoundTrip(env, WireName(f), s);
  }

  /** The value of field f read by its leaf adapter: what follows is the next type byte. */
  lemma FieldValue(env: Env, token: Token, f: Field, k: AdapterClass, x: Value, after: seq<Byte>)
    requires Wf(env) && Known(env.u, token) && f in env.u[token.raw].fields
    requires LeafClass(env, f.ty.raw, k) && Fits(k, x)
    ensures Decode(env, Instance(k), GetId(Instance(k)), LeafOut(k, x).bytes + after, f.ty) == Read(Ok(x), after)
  {
    LeafRoundTrip(k, x, after);
  }

  /**
   * The value of field f read by its leaf adapter, then the next type byte:
   * 0 ends the object, a leaf adapter's id goes on to the next field.
   */
  lemma FieldInStep(env: Env, token: Token, f: Field, k: AdapterClass, x: Value, after: seq<Byte>, acc: map<Str, Value>)
    requires Wf(env) && Known(env.u, token) && f in env.u[token.raw].fields
    requires acc.Keys == FieldNames(env.u[token.raw].fields)
    requires LeafClass(env, f.ty.raw, k) && Fits(k, x)
    requires |after| > 0 && 0 <= after[0] < 0x80
    ensures after[0] == 0 ==>
      FieldIn(env, token, f, GetId(Instance(k)), LeafOut(k, x).bytes + after, acc) == Read(Ok(ObjectV(acc[f.name := x])), after[1..])
    ensures after[0] != 0 ==>
      FieldIn(env, token, f, GetId(Instance(k)), LeafOut(k, x).bytes + after, acc) == Fields(env, token, after[0], after[1..], acc[f.name := x])
  {
    LeafId(k, []);
    LeafClassResolves(env, f.ty, k);
    FieldValue(env, token, f, k, x, after);
    NextByte(after);
  }

  /** readByte on bytes starting with a small non-negative byte. */
  lemma NextByte(s: seq<Byte>)
    requires |s| > 0 && s[0] < 0x80
    ensures ReadIn(s, 1) == Read(Ok(s[0]), s[1..])
  {
    assert s == [s[0]] + s[1..];
    ParserFacts.SmallByteReads(s[0], s[1..]);
  }

  /** The i-th field's part of what toNBT wrote, after its id: its name, its value, then what follows. */
  lemma WireAfterId(ks: seq<AdapterClass>, fs: seq<Field>, m: map<Str, Value>, i: nat, rest: seq<Byte>)
    requires |ks| == |fs| && i < |fs| && IsLeaf(ks[i]) && fs[i].name in m
    ensures Wire(ks, fs, m, i)[1..] + ([0] + rest) ==
      ShortBytes(|WireName(fs[i])|) + WireName(fs[i]) + (LeafOut(ks[i], m[fs[i].name]).bytes + (Wire(ks, fs, m, i + 1) + ([0] + rest)))
  {
    var id := GetId(Instance(ks[i]));
    var name, x := WireName(fs[i]), m[fs[i].name];
    LeafId(ks[i], []);
    var body := ShortBytes(|name|) + name + LeafOut(ks[i], x).bytes;
    assert Wire(ks, fs, m, i) == [id] + body + Wire(ks, fs, m, i + 1);
    DropHead(id, body, Wire(ks, fs, m, i + 1), [0] + rest);
    ConcatAssoc(ShortBytes(|name|) + name, LeafOut(ks[i], x).bytes, Wire(ks, fs, m, i + 1) + ([0] + rest));
  }

  lemma DropHead(id: Byte, body: seq<Byte>, w: seq<Byte>, t: seq<Byte>)
    ensures ([id] + body + w)[1..] + t == body + (w + t)
  {
    assert ([id] + body + w)[1..] == body + w;
  }

  /** What toNBT wrote from the i-th field on starts with that field's id, or is the closing 0 when all fields are written. */
  lemma WireStart(ks: seq<AdapterClass>, fs: seq<Field>, m: map<Str, Value>, i: nat, rest: seq<Byte>)
    requires |ks| == |fs| && i <= |fs| && (i < |fs| ==> IsLeaf(ks[i]))
    ensures |Wire(ks, fs, m, i) + ([0] + rest)| > 0
    ensures i == |fs| ==> (Wire(ks, fs, m, i) + ([0] + rest))[0] == 0 && (Wire(ks, fs, m, i) + ([0] + rest))[1..] == rest
    ensures i < |fs| ==> Wire(ks, fs, m, i) + ([0] + rest) == [GetId(Instance(ks[i]))] + (Wire(ks, fs, m, i)[1..] + ([0] + rest))
    ensures i < |fs| ==> (Wire(ks, fs, m, i) + ([0] + rest))[0] == GetId(Instance(ks[i]))
    ensures i < |fs| ==> (Wire(ks, fs, m, i) + ([0] + rest))[1..] == Wire(ks, fs, m, i)[1..] + ([0] + rest)
  {
    if i < |fs| {
      WireHead(ks, fs, m, i);
      SplitHead(Wire(ks, fs, m, i), [0] + rest);
    } else {
      assert Wire(ks, fs, m, i) + ([0] + rest) == [0] + rest;
    }
  }

  /** The i-th field's bytes start with its adapter's id. */
  lemma WireHead(ks: seq<AdapterClass>, fs: seq<Field>, m: map<Str, Value>, i: nat)
    requires |ks| == |fs| && i < |fs| && IsLeaf(ks[i])
    ensures |Wire(ks, fs, m, i)| > 0 && Wire(ks, fs, m, i)[0] == GetId(Instance(ks[i]))
  {
    LeafId(ks[i], []);
    var x := if fs[i].name in m then m[fs[i].name] else Null;
    var fb := FieldBytes(ks[i], WireName(fs[i]), x);
    assert Wire(ks, fs, m, i) == fb + Wire(ks, fs, m, i + 1);
    assert fb[0] == GetId(Instance(ks[i]));
  }

  lemma SplitHead(w: seq<Byte>, t: seq<Byte>)
    requires |w| > 0
    ensures w + t == [w[0]] + (w[1..] + t) && (w + t)[0] == w[0] && (w + t)[1..] == w[1..] + t
  {
    assert w == [w[0]] + w[1..];
  }

  /** The last field read back: the closing 0 ends the object. */
  lemma LastStep(env: Env, token: Token, ks: seq<AdapterClass>, v: Value, i: nat, acc: map<Str, Value>, rest: seq<Byte>)
    requires LeafObjectFrom(env, token, ks, v, i) && i + 1 == |ks|
    requires acc.Keys == FieldNames(env.u[token.raw].fields)
    ensures
      var fs := env.u[token.raw].fields;
      Fields(env, token, GetId(Instance(ks[i])), Wire(ks, fs, v.fields, i)[1..] + ([0] + rest), acc) ==
        Read(Ok(ObjectV(acc[fs[i].name := v.fields[fs[i].name]])), rest)
  {
    var fs := env.u[token.raw].fields;
    LeafFieldsNext(env, fs, ks, v.fields, i);
    var f, k := fs[i], ks[i];
    var after := Wire(ks, fs, v.fields, i + 1) + ([0] + rest);
    WireAfterId(ks, fs, v.fields, i, rest);
    FieldsNameStep(env, token, GetId(Instance(k)), f, LeafOut(k, v.fields[f.name]).bytes + after, acc);
    WireStart(ks, fs, v.fields, i + 1, rest);
    FieldInStep(env, token, f, k, v.fields[f.name], after, acc);
  }

  /** A field before the last read back: the next field's id follows. */
  lemma MidStep(env: Env, token: Token, ks: seq<AdapterClass>, v: Value, i: nat, acc: map<Str, Value>, rest: seq<Byte>)
    requires LeafObjectFrom(env, token, ks, v, i) && i + 1 < |ks|
    requires acc.Keys == FieldNames(env.u[token.raw].fields)
    ensures
      var fs := env.u[token.raw].fields;
      Fields(env, token, GetId(Instance(ks[i])), Wire(ks, fs, v.fields, i)[1..] + ([0] + rest), acc) ==
        Fields(env, token, GetId(Instance(ks[i + 1])), Wire(ks, fs, v.fields, i + 1)[1..] + ([0] + rest), acc[fs[i].name := v.fields[fs[i].name]])
  {
    var fs := env.u[token.raw].fields;
    LeafFieldsNext(env, fs, ks, v.fields, i);
    LeafFieldsNext(env, fs, ks, v.fields, i + 1);
    var f, k := fs[i], ks[i];
    var after := Wire(ks, fs, v.fields, i + 1) + ([0] + rest);
    WireAfterId(ks, fs, v.fields, i, rest);
    FieldsNameStep(env, token, GetId(Instance(k)), f, LeafOut(k, v.fields[f.name]).bytes + after, acc);
    WireStart(ks, fs, v.fields, i + 1, rest);
    LeafId(ks[i + 1], []);
    FieldInStep(env, token, f, k, v.fields[f.name], after, acc);
  }

  /** Two maps with the same keys, the names of fs, that agree on every field of fs are equal. */
  lemma AgreeEverywhere(fs: seq<Field>, acc: map<Str, Value>, m: map<Str, Value>)
    requires acc.Keys == FieldNames(fs) && m.Keys == FieldNames(fs)
    requires forall j :: 0 <= j < |fs| ==> acc[fs[j].name] == m[fs[j].name]
    ensures acc == m
  {
    forall n | n in acc
      ensures acc[n] == m[n]
    {
      var f :| f in fs && f.name == n;
      var j :| 0 <= j < |fs| && fs[j] == f;
    }
  }

  /** Storing the i-th field's value in acc keeps acc in agreement with m on the first i + 1 fields. */
  lemma AgreeMore(fs: seq<Field>, acc: map<Str, Value>, m: map<Str, Value>, i: nat)
    requires i < |fs| && m.Keys == FieldNames(fs) && acc.Keys == FieldNames(fs)
    requires forall j :: 0 <= j < i ==> acc[fs[j].name] == m[fs[j].name]
    ensures fs[i].name in m
    ensures acc[fs[i].name := m[fs[i].name]].Keys == FieldNames(fs)
    ensures forall j :: 0 <= j < i + 1 ==> acc[fs[i].name := m[fs[i].name]][fs[j].name] == m[fs[j].name]
  {
    assert fs[i] in fs;
    forall j | 0 <= j < i + 1
      ensures fs[j].name in m
    {
      assert fs[j] in fs;
    }
  }

  /**
   * The field loop over what toNBT wrote, from the i-th field on, with acc
   * holding the earlier fields' values, ends with the whole object and
   * leaves what followed the closing 0.
   */
  lemma {:induction false} FieldsReadBack(env: Env, token: Token, ks: seq<AdapterClass>, v: Value, i: nat, acc: map<Str, Value>, rest: seq<Byte>)
    requires LeafObjectFrom(env, token, ks, v, i) && i < |ks|
    requires acc.Keys == FieldNames(env.u[token.raw].fields)
    requires forall j :: 0 <= j < i ==> acc[env.u[token.raw].fields[j].name] == v.fields[env.u[token.raw].fields[j].name]
    ensures Fields(env, token, GetId(Instance(ks[i])), Wire(ks, env.u[token.raw].fields, v.fields, i)[1..] + ([0] + rest), acc)
      == Read(Ok(v), rest)
    decreases |ks| - i
  {
    var fs := env.u[token.raw].fields;
    AgreeMore(fs, acc, v.fields, i);
    var acc' := acc[fs[i].name := v.fields[fs[i].name]];
    if i + 1 == |ks| {
      LastStep(env, token, ks, v, i, acc, rest);
      AgreeEverywhere(fs, acc', v.fields);
    } else {
      LeafFieldsNext(env, fs, ks, v.fields, i);
      FieldsReadBack(env, token, ks, v, i + 1, acc', rest);
      FieldsReadBackNext(env, token, ks, v, i, acc, rest);
    }
  }

  /** A field that is not the last, read in front of the later fields, which read back. */
  lemma FieldsReadBackNext(env: Env, token: Token, ks: seq<AdapterClass>, v: Value, i: nat, acc: map<Str, Value>, rest: seq<Byte>)
    requires LeafObjectFrom(env, token, ks, v, i) && i + 1 < |ks|
    requires acc.Keys == FieldNames(env.u[token.raw].fields)
    requires
      var fs := env.u[token.raw].fields;
      Fields(env, token, GetId(Instance(ks[i + 1])), Wire(ks, fs, v.fields, i + 1)[1..] + ([0] + rest), acc[fs[i].name := v.fields[fs[i].name]])
        == Read(Ok(v), rest)
    ensures Fields(env, token, GetId(Instance(ks[i])), Wire(ks, env.u[token.raw].fields, v.fields, i)[1..] + ([0] + rest), acc)
      == Read(Ok(v), rest)
  {
    MidStep(env, token, ks, v, i, acc, rest);
  }

  /** ObjectAdapter.toNBT on such an object: every field, then the closing 0. */
  lemma ObjectOutWire(env: Env, token: Token, ks: seq<AdapterClass>, v: Value)
    requires LeafObjectFrom(env, token, ks, v, 0)
    ensures ObjectOut(env, v, token) == Emitted(Wire(ks, env.u[token.raw].fields, v.fields, 0) + [0], None)
  {
    FieldsOutWire(env, token, ks, v, 0);
  }

  /** What toNBT wrote for the whole object, followed by rest: the first field's id, then everything after it. */
  lemma WireClosed(ks: seq<AdapterClass>, fs: seq<Field>, m: map<Str, Value>, rest: seq<Byte>)
    requires |ks| == |fs| > 0 && IsLeaf(ks[0])
    ensures 0 < GetId(Instance(ks[0])) < 0x80
    ensures Wire(ks, fs, m, 0) + [0] + rest == [GetId(Instance(ks[0]))] + (Wire(ks, fs, m, 0)[1..] + ([0] + rest))
  {
    WireStart(ks, fs, m, 0, rest);
    LeafId(ks[0], []);
    assert Wire(ks, fs, m, 0) + [0] + rest == Wire(ks, fs, m, 0) + ([0] + rest);
  }

  /** ObjectAdapter.fromNBT with a first type byte below 0x80: a new instance, then the field loop. */
  lemma ObjectInStart(env: Env, token: Token, next: int, s: seq<Byte>)
    requires Wf(env) && Known(env.u, token) && env.u[token.raw].instantiable
    requires 0 <= next < 0x80
    ensures Defaults(env.u[token.raw].fields).Keys == FieldNames(env.u[token.raw].fields)
    ensures ObjectIn(env, CompoundId, [next] + s, token) == Fields(env, token, next, s, Defaults(env.u[token.raw].fields))
  {
    DefaultsKeys(env.u[token.raw].fields);
    NextByte([next] + s);
    assert ([next] + s)[1..] == s;
  }

  /**
   * An object whose fields all go through leaf adapters, and whose wire
   * names select their fields again, reads back as written through the
   * object adapter, leaving what followed.
   */
  lemma ObjectRoundTrip(env: Env, token: Token, ks: seq<AdapterClass>, v: Value, rest: seq<Byte>)
    requires LeafObject(env, token, ks, v)
    ensures ObjectOut(env, v, token).failure.None?
    ensures ObjectIn(env, CompoundId, ObjectOut(env, v, token).bytes + rest, token) == Read(Ok(v), rest)
  {
    var fs := env.u[token.raw].fields;
    ObjectOutWire(env, token, ks, v);
    LeafFieldsNext(env, fs, ks, v.fields, 0);
    WireClosed(ks, fs, v.fields, rest);
    ObjectInStart(env, token, GetId(Instance(ks[0])), Wire(ks, fs, v.fields, 0)[1..] + ([0] + rest));
    FieldsReadBack(env, token, ks, v, 0, Defaults(fs), rest);
  }
}
