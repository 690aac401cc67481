// What the adapters the map and array factories create read back of what
// they wrote, when the items go through a leaf adapter.  A non-empty map
// comes back through the corrected map decoder and as null through the
// decoder as written; an empty map is written as a lone 0 that neither
// decoder can read back.  An array comes back whatever its length.
module AdapterCollections {
  import opened Bytes
  import opened Tags
  import opened AdapterTypes
  import opened Resolution
  import opened AdapterSpec
  import opened AdapterRoundTrip
  import KeyOrder
  import TagSpec
  import ParserFacts

  // ---------------------------------------------------------------------
  // Maps
  // ---------------------------------------------------------------------

  /**
   * The registry has its default leaf entries, the item adapter is the
   * leaf adapter k for items of class c, and every key of m can be written
   * as a String and every value through k.
   */
  predicate LeafMap(env: Env, k: AdapterClass, c: ClassId, m: map<Str, Value>)
  {
    && Wf(env) && DefaultLeaves(env) && IsLeaf(k) && c in env.u
    && forall key :: key in m ==> |key| <= ShortMax && Fits(k, m[key])
  }

  /** The entries keys[i..] of m, as the map adapter writes them: the item id, the key, the value. */
  function EntriesWire(k: AdapterClass, keys: seq<Str>, m: map<Str, Value>, i: nat): seq<Byte>
    decreases |keys| - i
  {
    if i >= |keys| then []
    else FieldBytes(k, keys[i], if keys[i] in m then m[keys[i]] else Null) + EntriesWire(k, keys, m, i + 1)
  }

  /** The entries of m under the first i keys. */
  function Taken(m: map<Str, Value>, keys: seq<Str>, i: nat): (r: map<Str, Value>)
    requires i <= |keys|
    ensures forall key :: key in r ==> key in m && r[key] == m[key]
  {
    map key | key in keys[..i] && key in m :: m[key]
  }

  lemma TakenNext(m: map<Str, Value>, keys: seq<Str>, i: nat)
    requires i < |keys| && keys[i] in m
    ensures Taken(m, keys, i + 1) == Taken(m, keys, i)[keys[i] := m[keys[i]]]
  {
    assert keys[..i + 1] == keys[..i] + [keys[i]];
  }

  lemma TakenAll(m: map<Str, Value>, keys: seq<Str>)
    requires forall key :: key in keys <==> key in m
    ensures Taken(m, keys, |keys|) == m
    ensures Taken(m, keys, 0) == map[]
  {
    assert keys[..|keys|] == keys;
  }

  /** The key and value of one entry can be written. */
  lemma EntryFits(env: Env, k: AdapterClass, c: ClassId, m: map<Str, Value>, key: Str)
    requires LeafMap(env, k, c, m) && key in m
    ensures |key| <= ShortMax && Fits(k, m[key])
  {
  }

  /** FieldBytes is the item id through writeByte, the key through writeString, then the value. */
  lemma EntryBytesSplit(env: Env, k: AdapterClass, key: Str, x: Value)
    requires DefaultLeaves(env) && IsLeaf(k) && |key| <= ShortMax
    ensures FieldBytes(k, key, x) ==
      WriteVia(env, BoxedByte, ByteV(ToJByte(GetId(Instance(k))))) + WriteVia(env, StringClass, StringV(key)) + LeafOut(k, x).bytes
  {
    LeafId(k, []);
    SmallByteVia(env, GetId(Instance(k)));
    NameRoundTrip(env, key, []);
    ConcatAssoc([GetId(Instance(k))], ShortBytes(|key|) + key, LeafOut(k, x).bytes);
  }

  /** The map adapter's toNBT on an entry its item adapter writes without an exception. */
  lemma EntriesOutUnfold(env: Env, k: AdapterClass, c: ClassId, v: Value, keys: seq<Str>, i: nat, head: seq<Byte>, value: seq<Byte>)
    requires Wf(env) && IsLeaf(k) && c in env.u
    requires v.MapV? && (forall key :: key in keys ==> key in v.entries) && i < |keys|
    requires head == WriteVia(env, BoxedByte, ByteV(ToJByte(GetId(Instance(k))))) + WriteVia(env, StringClass, StringV(keys[i]))
    requires Encode(env, Instance(k), v.entries[keys[i]], Plain(c)) == Emitted(value, None)
    ensures EntriesOut(env, Some(Instance(k)), c, v, keys, i) ==
      Then(Emitted(head + value, None), EntriesOut(env, Some(Instance(k)), c, v, keys, i + 1))
  {
  }

  /** One entry written: its item id, key and value, then the entries after it. */
  lemma EntryOutStep(env: Env, k: AdapterClass, c: ClassId, v: Value, keys: seq<Str>, i: nat)
    requires v.MapV? && LeafMap(env, k, c, v.entries)
    requires (forall key :: key in keys ==> key in v.entries) && i < |keys|
    ensures EntriesOut(env, Some(Instance(k)), c, v, keys, i) ==
      Then(Emitted(FieldBytes(k, keys[i], v.entries[keys[i]]), None), EntriesOut(env, Some(Instance(k)), c, v, keys, i + 1))
  {
    var key := keys[i];
    assert key in keys;
    var x := v.entries[key];
    EntryFits(env, k, c, v.entries, key);
    LeafRoundTrip(k, x, []);
    ItemOut(env, k, c, x);
    EntryBytesSplit(env, k, key, x);
    EntriesOutUnfold(env, k, c, v, keys, i,
      WriteVia(env, BoxedByte, ByteV(ToJByte(GetId(Instance(k))))) + WriteVia(env, StringClass, StringV(key)), LeafOut(k, x).bytes);
  }

  /** The entries keys[i..], as the map adapter's toNBT writes them, succeed and lay out one after the other. */
  lemma {:induction false} EntriesOutWire(env: Env, k: AdapterClass, c: ClassId, v: Value, keys: seq<Str>, i: nat)
    requires v.MapV? && LeafMap(env, k, c, v.entries)
    requires forall key :: key in keys ==> key in v.entries
    ensures EntriesOut(env, Some(Instance(k)), c, v, keys, i) == Emitted(EntriesWire(k, keys, v.entries, i), None)
    decreases |keys| - i
  {
    if i < |keys| {
      assert keys[i] in keys;
      var head := FieldBytes(k, keys[i], v.entries[keys[i]]);
      EntryOutStep(env, k, c, v, keys, i);
      EntriesOutWire(env, k, c, v, keys, i + 1);
      assert EntriesWire(k, keys, v.entries, i) == head + EntriesWire(k, keys, v.entries, i + 1);
    }
  }

  /** The map adapter's toNBT on such a map: every entry in iteration order, then a 0. */
  lemma MapOutWire(env: Env, k: AdapterClass, c: ClassId, v: Value)
    requires v.MapV? && LeafMap(env, k, c, v.entries)
    ensures MapOut(env, Some(Instance(k)), c, v) == Emitted(EntriesWire(k, KeyOrder.Order(v.entries.Keys), v.entries, 0) + [0], None)
  {
    EntriesOutWire(env, k, c, v, KeyOrder.Order(v.entries.Keys), 0);
    SmallByteVia(env, 0);
  }

  /** One pass of the entry loop, given what each of its reads returns. */
  lemma EntriesUnfold(env: Env, item: Adapter, c: ClassId, next: int, s: seq<Byte>, acc: map<Str, Value>,
                      key: Str, s1: seq<Byte>, x: Value, after: seq<Byte>, b: int, tail: seq<Byte>)
    requires Wf(env) && c in env.u && AdapterKnown(env.u, item)
    requires FromString(env, s) == Read(Some(key), s1)
    requires TagSpec.TypeById(next) == Ok(next)
    requires Decode(env, item, next, s1, Plain(c)) == Read(Ok(x), after)
    requires ReadIn(after, 1) == Read(Ok(b), tail)
    ensures Entries(env, Some(item), c, next, s, acc) ==
      if b == 0 then Read(Ok(acc[key := x]), tail) else Entries(env, Some(item), c, b, tail, acc[key := x])
  {
  }

  /** The item adapter writes as its leaf adapter class does. */
  lemma ItemOut(env: Env, k: AdapterClass, c: ClassId, x: Value)
    requires Wf(env) && IsLeaf(k) && c in env.u
    ensures DecodeReady(env, Instance(k), Plain(c))
    ensures Encode(env, Instance(k), x, Plain(c)) == LeafOut(k, x)
  {
  }

  /** The item adapter reads back, with its own id, a value it wrote. */
  lemma ItemValue(env: Env, k: AdapterClass, c: ClassId, x: Value, after: seq<Byte>)
    requires Wf(env) && IsLeaf(k) && c in env.u && Fits(k, x)
    ensures Decode(env, Instance(k), GetId(Instance(k)), LeafOut(k, x).bytes + after, Plain(c)) == Read(Ok(x), after)
  {
    LeafRoundTrip(k, x, after);
  }

  /**
   * One pass of the entry loop over a key and a value written by the item
   * adapter, then the next type byte: 0 ends the map, anything else below
   * 0x80 goes on.
   */
  lemma EntryInStep(env: Env, k: AdapterClass, c: ClassId, key: Str, x: Value, after: seq<Byte>, acc: map<Str, Value>)
    requires Wf(env) && DefaultLeaves(env) && IsLeaf(k) && c in env.u
    requires |key| <= ShortMax && Fits(k, x)
    requires |after| > 0 && after[0] < 0x80
    ensures
      var r := Entries(env, Some(Instance(k)), c, GetId(Instance(k)), ShortBytes(|key|) + key + (LeafOut(k, x).bytes + after), acc);
      r == if after[0] == 0 then Read(Ok(acc[key := x]), after[1..]) else Entries(env, Some(Instance(k)), c, after[0], after[1..], acc[key := x])
  {
    LeafId(k, []);
    NameRoundTrip(env, key, LeafOut(k, x).bytes + after);
    ItemValue(env, k, c, x, after);
    NextByte(after);
    EntriesUnfold(env, Instance(k), c, GetId(Instance(k)), ShortBytes(|key|) + key + (LeafOut(k, x).bytes + after), acc,
      key, LeafOut(k, x).bytes + after, x, after, after[0], after[1..]);
  }

  /** With a type byte of 0 the entry loop still reads a name and a value, and the item adapter refuses the id. */
  lemma EntriesRefuseEnd(env: Env, k: AdapterClass, c: ClassId, s: seq<Byte>, acc: map<Str, Value>)
    requires Wf(env) && IsLeaf(k) && c in env.u
    ensures Entries(env, Some(Instance(k)), c, 0, s, acc).value == Err(ParseFailure)
  {
    var name := FromString(env, s);
    LeafChecksId(k, 0, name.rest);
  }

  /** The i-th entry's part of what toNBT wrote, after its item id: its key, its value, then what follows. */
  lemma EntriesWireAfterId(k: AdapterClass, keys: seq<Str>, m: map<Str, Value>, i: nat, rest: seq<Byte>)
    requires IsLeaf(k) && i < |keys| && keys[i] in m
    ensures EntriesWire(k, keys, m, i)[1..] + ([0] + rest) ==
      ShortBytes(|keys[i]|) + keys[i] + (LeafOut(k, m[keys[i]]).bytes + (EntriesWire(k, keys, m, i + 1) + ([0] + rest)))
  {
    var id := GetId(Instance(k));
    var key, x := keys[i], m[keys[i]];
    LeafId(k, []);
    var body := ShortBytes(|key|) + key + LeafOut(k, x).bytes;
    assert EntriesWire(k, keys, m, i) == [id] + body + EntriesWire(k, keys, m, i + 1);
    DropHead(id, body, EntriesWire(k, keys, m, i + 1), [0] + rest);
    ConcatAssoc(ShortBytes(|key|) + key, LeafOut(k, x).bytes, EntriesWire(k, keys, m, i + 1) + ([0] + rest));
  }

  /** What toNBT wrote from the i-th entry on starts with the item id, or is the closing 0 when all entries are written. */
  lemma EntriesWireStart(k: AdapterClass, keys: seq<Str>, m: map<Str, Value>, i: nat, rest: seq<Byte>)
    requires IsLeaf(k) && i <= |keys|
    ensures |EntriesWire(k, keys, m, i) + ([0] + rest)| > 0
    ensures i == |keys| ==> (EntriesWire(k, keys, m, i) + ([0] + rest))[0] == 0 && (EntriesWire(k, keys, m, i) + ([0] + rest))[1..] == rest
    ensures i < |keys| ==> (EntriesWire(k, keys, m, i) + ([0] + rest))[0] == GetId(Instance(k))
    ensures i < |keys| ==> (EntriesWire(k, keys, m, i) + ([0] + rest))[1..] == EntriesWire(k, keys, m, i)[1..] + ([0] + rest)
  {
    if i < |keys| {
      LeafId(k, []);
      assert EntriesWire(k, keys, m, i)[0] == GetId(Instance(k));
    } else {
      assert EntriesWire(k, keys, m, i) + ([0] + rest) == [0] + rest;
    }
  }

  /**
   * The entry loop over what toNBT wrote, from the i-th entry on, with acc
   * holding the entries under the earlier keys, ends with the entries
   * under all the keys and leaves what followed the closing 0.
   */
  lemma {:induction false} EntriesReadBack(env: Env, k: AdapterClass, c: ClassId, m: map<Str, Value>, keys: seq<Str>, i: nat, rest: seq<Byte>)
    requires LeafMap(env, k, c, m) && (forall key :: key in keys ==> key in m) && i < |keys|
    ensures Entries(env, Some(Instance(k)), c, GetId(Instance(k)), EntriesWire(k, keys, m, i)[1..] + ([0] + rest), Taken(m, keys, i))
      == Read(Ok(Taken(m, keys, |keys|)), rest)
    decreases |keys| - i
  {
    var key := keys[i];
    assert key in keys;
    EntryFits(env, k, c, m, key);
    var after := EntriesWire(k, keys, m, i + 1) + ([0] + rest);
    EntriesWireAfterId(k, keys, m, i, rest);
    EntriesWireStart(k, keys, m, i + 1, rest);
    EntryInStep(env, k, c, key, m[key], after, Taken(m, keys, i));
    TakenNext(m, keys, i);
    if i + 1 < |keys| {
      EntriesReadBack(env, k, c, m, keys, i + 1, rest);
    }
  }

  /** The map adapter's fromNBT up to the entry loop: a new instance, then the first type byte. */
  lemma MapBodyStart(env: Env, k: AdapterClass, c: ClassId, token: Token, next: int, s: seq<Byte>)
    requires Wf(env) && IsLeaf(k) && c in env.u && Known(env.u, token) && env.u[token.raw].instantiable
    requires 0 <= next < 0x80
    ensures MapBody(env, Some(Instance(k)), c, [next] + s, token) == Entries(env, Some(Instance(k)), c, next, s, map[])
  {
    NextByte([next] + s);
    assert ([next] + s)[1..] == s;
  }

  /** What toNBT wrote for a non-empty map, followed by rest: the first item id, then everything after it. */
  lemma EntriesClosed(k: AdapterClass, keys: seq<Str>, m: map<Str, Value>, rest: seq<Byte>)
    requires IsLeaf(k) && |keys| > 0
    ensures 0 < GetId(Instance(k)) < 0x80
    ensures EntriesWire(k, keys, m, 0) + [0] + rest == [GetId(Instance(k))] + (EntriesWire(k, keys, m, 0)[1..] + ([0] + rest))
  {
    EntriesWireStart(k, keys, m, 0, rest);
    LeafId(k, []);
    var t := EntriesWire(k, keys, m, 0) + ([0] + rest);
    assert t == [t[0]] + t[1..];
    assert EntriesWire(k, keys, m, 0) + [0] + rest == t;
  }

  /** The entries the map adapter's fromNBT collects from what its toNBT wrote for a non-empty map. */
  lemma MapBodyReadBack(env: Env, k: AdapterClass, c: ClassId, token: Token, v: Value, rest: seq<Byte>)
    requires v.MapV? && LeafMap(env, k, c, v.entries) && |v.entries| > 0
    requires Known(env.u, token) && env.u[token.raw].instantiable
    ensures MapOut(env, Some(Instance(k)), c, v).failure.None?
    ensures MapBody(env, Some(Instance(k)), c, MapOut(env, Some(Instance(k)), c, v).bytes + rest, token) == Read(Ok(v.entries), rest)
  {
    var keys := KeyOrder.Order(v.entries.Keys);
    MapOutWire(env, k, c, v);
    EntriesClosed(k, keys, v.entries, rest);
    MapBodyStart(env, k, c, token, GetId(Instance(k)), EntriesWire(k, keys, v.entries, 0)[1..] + ([0] + rest));
    TakenAll(v.entries, keys);
    EntriesReadBack(env, k, c, v.entries, keys, 0, rest);
  }

  /**
   * A non-empty map whose values go through a leaf adapter reads back as
   * written through the corrected map decoder; the decoder as written
   * consumes exactly the same bytes and returns null.
   */
  lemma MapRoundTrip(env: Env, k: AdapterClass, c: ClassId, token: Token, v: Value, rest: seq<Byte>)
    requires v.MapV? && LeafMap(env, k, c, v.entries) && |v.entries| > 0
    requires Known(env.u, token) && env.u[token.raw].instantiable
    ensures MapOut(env, Some(Instance(k)), c, v).failure.None?
    ensures MapInFixed(env, Some(Instance(k)), c, MapOut(env, Some(Instance(k)), c, v).bytes + rest, token) == Read(Ok(v), rest)
    ensures MapIn(env, Some(Instance(k)), c, MapOut(env, Some(Instance(k)), c, v).bytes + rest, token) == Read(Ok(Null), rest)
  {
    MapBodyReadBack(env, k, c, token, v, rest);
  }

  /**
   * An empty map is written as a single 0, and the map adapter's fromNBT
   * cannot read it back: its loop reads a name and a value before it looks
   * at the type byte, and the item adapter refuses the id 0.
   */
  lemma EmptyMapFails(env: Env, k: AdapterClass, c: ClassId, token: Token, rest: seq<Byte>)
    requires Wf(env) && DefaultLeaves(env) && IsLeaf(k) && c in env.u
    requires Known(env.u, token) && env.u[token.raw].instantiable
    ensures MapOut(env, Some(Instance(k)), c, MapV(map[])) == Emitted([0], None)
    ensures MapInFixed(env, Some(Instance(k)), c, MapOut(env, Some(Instance(k)), c, MapV(map[])).bytes + rest, token).value == Err(ParseFailure)
    ensures MapIn(env, Some(Instance(k)), c, MapOut(env, Some(Instance(k)), c, MapV(map[])).bytes + rest, token).value == Err(ParseFailure)
  {
    var empty: map<Str, Value> := map[];
    assert KeyOrder.Order(empty.Keys) == [];
    MapOutWire(env, k, c, MapV(empty));
    assert EntriesWire(k, [], empty, 0) + [0] == [0];
    MapBodyStart(env, k, c, token, 0, rest);
    EntriesRefuseEnd(env, k, c, rest, map[]);
  }

  // ---------------------------------------------------------------------
  // Arrays
  // ---------------------------------------------------------------------

  /**
   * The registry has its default leaf entries, the content adapter is the
   * leaf adapter k for elements of class c, and es is a Java array (its
   * length an int) of values k writes.
   */
  predicate LeafArray(env: Env, k: AdapterClass, c: ClassId, es: seq<Value>)
  {
    && Wf(env) && DefaultLeaves(env) && IsLeaf(k) && c in env.u
    && |es| < 0x8000_0000
    && forall j :: 0 <= j < |es| ==> Fits(k, es[j])
  }

  /** The elements es[i..] as the content adapter writes them, one after the other. */
  function ElemsWire(k: AdapterClass, es: seq<Value>, i: nat): seq<Byte>
    decreases |es| - i
  {
    if i >= |es| then [] else LeafOut(k, es[i]).bytes + ElemsWire(k, es, i + 1)
  }

  /** The array adapter's element loop from position i on, over elements of the content adapter's kind, writes them one after the other. */
  lemma {:induction false} ElemsOutWire(env: Env, k: AdapterClass, c: ClassId, es: seq<Value>, i: nat)
    requires Wf(env) && IsLeaf(k) && c in env.u
    requires forall j :: i <= j < |es| ==> Fits(k, es[j])
    ensures ElemsOut(env, Instance(k), c, ArrayV(es), i) == Emitted(ElemsWire(k, es, i), None)
    decreases |es| - i
  {
    if i < |es| {
      LeafRoundTrip(k, es[i], []);
      ElemsOutUnfold(env, k, c, es, i);
      ElemsOutWire(env, k, c, es, i + 1);
    }
  }

  /** The element loop fails once it reaches an element of another kind. */
  lemma {:induction false} ElemsOutMisfit(env: Env, k: AdapterClass, c: ClassId, es: seq<Value>, i: nat, j: nat)
    requires Wf(env) && IsLeaf(k) && c in env.u
    requires i <= j < |es| && !Fits(k, es[j])
    ensures ElemsOut(env, Instance(k), c, ArrayV(es), i).failure.Some?
    decreases j - i
  {
    LeafRoundTrip(k, es[i], []);
    ElemsOutUnfold(env, k, c, es, i);
    if i < j {
      ElemsOutMisfit(env, k, c, es, i + 1, j);
    }
  }

  /** One element written by the content adapter, then the elements after it. */
  lemma ElemsOutUnfold(env: Env, k: AdapterClass, c: ClassId, es: seq<Value>, i: nat)
    requires Wf(env) && IsLeaf(k) && c in env.u && i < |es|
    ensures ElemsOut(env, Instance(k), c, ArrayV(es), i) == Then(LeafOut(k, es[i]), ElemsOut(env, Instance(k), c, ArrayV(es), i + 1))
  {
    ItemOut(env, k, c, es[i]);
  }

  /** The array adapter's toNBT on an array, given what writeByte and writeInt write. */
  lemma ArrayOutUnfold(env: Env, k: AdapterClass, c: ClassId, es: seq<Value>, head: seq<Byte>, count: seq<Byte>)
    requires Wf(env) && IsLeaf(k) && c in env.u
    requires head == WriteVia(env, BoxedByte, ByteV(ToJByte(GetId(Instance(k)))))
    requires count == WriteVia(env, BoxedInteger, IntV(ToJInt(|es|)))
    ensures ArrayOut(env, Some(Instance(k)), c, ArrayV(es)) ==
      (var body := ElemsOut(env, Instance(k), c, ArrayV(es), 0);
       Emitted(head + count + body.bytes, if body.failure.Some? then Some(Wrapped(body.failure.value)) else None))
  {
  }

  /** writeInt of an array length. */
  lemma CountVia(env: Env, n: nat, tail: seq<Byte>)
    requires DefaultLeaves(env) && n < 0x8000_0000
    ensures ToJInt(n) == n
    ensures WriteVia(env, BoxedInteger, IntV(ToJInt(n))) == IntBytes(n)
    ensures FromInt(env, IntBytes(n) + tail) == Read(Some(n), tail)
  {
    WidthBounds();
    IntVia(env, n, tail);
  }

  /**
   * The array adapter's toNBT on an array: the content id, the length,
   * then the elements; it fails exactly when some element is not of the
   * content adapter's kind.
   */
  lemma ArrayOutWire(env: Env, k: AdapterClass, c: ClassId, es: seq<Value>)
    requires Wf(env) && DefaultLeaves(env) && IsLeaf(k) && c in env.u && |es| < 0x8000_0000
    ensures ArrayOut(env, Some(Instance(k)), c, ArrayV(es)).failure.None? <==> forall j :: 0 <= j < |es| ==> Fits(k, es[j])
    ensures (forall j :: 0 <= j < |es| ==> Fits(k, es[j])) ==>
      ArrayOut(env, Some(Instance(k)), c, ArrayV(es)).bytes == [GetId(Instance(k))] + IntBytes(|es|) + ElemsWire(k, es, 0)
  {
    LeafId(k, []);
    SmallByteVia(env, GetId(Instance(k)));
    CountVia(env, |es|, []);
    ArrayOutUnfold(env, k, c, es, [GetId(Instance(k))], IntBytes(|es|));
    if forall j :: 0 <= j < |es| ==> Fits(k, es[j]) {
      ElemsOutWire(env, k, c, es, 0);
    } else {
      var j :| 0 <= j < |es| && !Fits(k, es[j]);
      ElemsOutMisfit(env, k, c, es, 0, j);
    }
  }

  /** The element loop reads back, in order, the elements written from position i on. */
  lemma {:induction false} ElemsReadBack(env: Env, k: AdapterClass, c: ClassId, es: seq<Value>, i: nat, rest: seq<Byte>)
    requires LeafArray(env, k, c, es) && i <= |es|
    ensures Elems(env, Some(Instance(k)), c, GetId(Instance(k)), ElemsWire(k, es, i) + rest, |es| - i) == Read(Ok(es[i..]), rest)
    decreases |es| - i
  {
    if i < |es| {
      SliceCons(es, i);
      ElemsWireCons(k, es, i, rest);
      ElemsReadBack(env, k, c, es, i + 1, rest);
      ItemReadBack(env, k, c, es, i, rest);
    } else {
      assert ElemsWire(k, es, i) + rest == rest;
      assert es[i..] == [];
    }
  }

  /**
   * Element i in front of the elements after it, which read back.  The
   * array condition is required as one equality so that a caller proves
   * it as a single fact rather than conjunct by conjunct.
   */
  lemma ItemReadBack(env: Env, k: AdapterClass, c: ClassId, es: seq<Value>, i: nat, rest: seq<Byte>)
    requires i < |es| && LeafArray(env, k, c, es)
    requires Elems(env, Some(Instance(k)), c, GetId(Instance(k)), ElemsWire(k, es, i + 1) + rest, |es| - (i + 1)) == Read(Ok(es[i + 1..]), rest)
    ensures Elems(env, Some(Instance(k)), c, GetId(Instance(k)), LeafOut(k, es[i]).bytes + (ElemsWire(k, es, i + 1) + rest), |es| - i)
         == Read(Ok([es[i]] + es[i + 1..]), rest)
  {
    var x, after, tail, m := es[i], ElemsWire(k, es, i + 1) + rest, es[i + 1..], |es| - (i + 1);
    ItemValue(env, k, c, x, after);
    ElemsCons(env, Some(Instance(k)), c, GetId(Instance(k)), LeafOut(k, x).bytes + after, m, x, after, tail, rest);
  }

  /** The elements from position i on begin with element i. */
  lemma ElemsWireCons(k: AdapterClass, es: seq<Value>, i: nat, rest: seq<Byte>)
    requires i < |es|
    ensures ElemsWire(k, es, i) + rest == LeafOut(k, es[i]).bytes + (ElemsWire(k, es, i + 1) + rest)
  {
    ConcatAssoc(LeafOut(k, es[i]).bytes, ElemsWire(k, es, i + 1), rest);
  }

  /** An element read, then the remaining ones read after it. */
  lemma ElemsCons(env: Env, content: Option<Adapter>, c: ClassId, kind: int, s: seq<Byte>, n: nat,
                  x: Value, after: seq<Byte>, tail: seq<Value>, rest: seq<Byte>)
    ensures Wf(env) && c in env.u && content.Some? && AdapterKnown(env.u, content.value) &&
            Decode(env, content.value, kind, s, Plain(c)) == Read(Ok(x), after) &&
            Elems(env, content, c, kind, after, n) == Read(Ok(tail), rest)
            ==> Elems(env, content, c, kind, s, n + 1) == Read(Ok([x] + tail), rest)
  {
  }

  /** The array adapter's fromNBT up to the element loop: the content id, then the length. */
  lemma ArrayInStart(env: Env, k: AdapterClass, c: ClassId, n: nat, s: seq<Byte>)
    requires Wf(env) && DefaultLeaves(env) && IsLeaf(k) && c in env.u && n < 0x8000_0000
    ensures ArrayIn(env, Some(Instance(k)), c, [GetId(Instance(k))] + IntBytes(n) + s) ==
      (var es := Elems(env, Some(Instance(k)), c, GetId(Instance(k)), s, n);
       Read(if es.value.Ok? then Ok(ArrayV(es.value.value)) else Err(Wrapped(es.value.error)), es.rest))
  {
    ConcatAssoc([GetId(Instance(k))], IntBytes(n), s);
    LeafId(k, IntBytes(n) + s);
    CountVia(env, n, s);
  }

  /** What the array adapter writes for an array, followed by rest, reads back as that array. */
  lemma ArrayWireReadBack(env: Env, k: AdapterClass, c: ClassId, es: seq<Value>, rest: seq<Byte>)
    requires LeafArray(env, k, c, es)
    ensures ArrayIn(env, Some(Instance(k)), c, [GetId(Instance(k))] + IntBytes(|es|) + ElemsWire(k, es, 0) + rest) == Read(Ok(ArrayV(es)), rest)
  {
    assert es[0..] == es;
    ElemsReadBack(env, k, c, es, 0, rest);
    ConcatAssoc([GetId(Instance(k))] + IntBytes(|es|), ElemsWire(k, es, 0), rest);
    ArrayInStart(env, k, c, |es|, ElemsWire(k, es, 0) + rest);
  }

  /**
   * An array of values of the content adapter's kind, of any length
   * including zero, reads back as written through the array adapter,
   * leaving what followed.
   */
  lemma ArrayRoundTrip(env: Env, k: AdapterClass, c: ClassId, es: seq<Value>, rest: seq<Byte>)
    requires LeafArray(env, k, c, es)
    ensures ArrayOut(env, Some(Instance(k)), c, ArrayV(es)).failure.None?
    ensures ArrayIn(env, Some(Instance(k)), c, ArrayOut(env, Some(Instance(k)), c, ArrayV(es)).bytes + rest) == Read(Ok(ArrayV(es)), rest)
  {
    ArrayOutWire(env, k, c, es);
    ArrayWireReadBack(env, k, c, es, rest);
  }
}
