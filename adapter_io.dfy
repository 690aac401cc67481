// The adapters of package mryurihi.tbnbt.adapter.impl as they run: each
// fromNBT reads from a DataInputStream and each toNBT writes to a
// DataOutputStream, step by step, with the loops of ObjectAdapter and of
// the adapters the map and array factories create.  Every method is proved
// to read or write exactly what the functions of AdapterSpec say.
module AdapterIO {
  import opened Bytes
  import opened Tags
  import opened AdapterTypes
  import opened Resolution
  import opened AdapterSpec
  import opened Streams
  import KeyOrder
  import TagSpec

  // ---------------------------------------------------------------------
  // Single values
  // ---------------------------------------------------------------------

  /** readByte (n = 1), readShort (2), readInt (4) or readLong (8) on the adapter's stream. */
  method ReadNext(input: Input, n: nat) returns (r: Result<int>)
    requires n >= 1
    modifies input`data
    ensures Read(r, input.data) == ReadIn(old(input.data), n)
  {
    r := input.ReadSigned(n);
  }

  /** fromNBT of the leaf adapters. */
  method LeafFromNBT(k: AdapterClass, id: int, input: Input) returns (r: Result<Value>)
    modifies input`data
    ensures Read(r, input.data) == LeafIn(k, id, old(input.data))
  {
    match k
    case ByteAdapter =>
      if id != ByteId { return Err(ParseFailure); }
      var b := ReadNext(input, 1);
      if b.Err? { return Err(ParseFailure); }
      return Ok(ByteV(AsByte(b.value)));
    case LongAdapter =>
      if id != LongId { return Err(ParseFailure); }
      var l := ReadNext(input, 8);
      if l.Err? { return Err(ParseFailure); }
      return Ok(LongV(AsLong(l.value)));
    case IntegerAdapter =>
      if id != IntId { return Err(ParseFailure); }
      var i := ReadNext(input, 4);
      if i.Err? { return Err(ParseFailure); }
      return Ok(IntV(AsInt(i.value)));
    case StringAdapter =>
      if id != StringId { return Err(ParseFailure); }
      var len := ReadNext(input, 2);
      if len.Err? || len.value < 0 { return Err(ParseFailure); }
      var chars := input.ReadFully(len.value);
      if chars.Err? { return Err(ParseFailure); }
      return Ok(StringV(chars.value));
    case _ =>
      return Err(Unmodelled);
  }

  /** toNBT of the leaf adapters. */
  method LeafToNBT(k: AdapterClass, v: Value, out: Output) returns (failure: Option<Error>)
    modifies out`written
    ensures out.written == old(out.written) + LeafOut(k, v).bytes
    ensures failure == LeafOut(k, v).failure
  {
    match k
    case ByteAdapter =>
      if !v.ByteV? { return Some(ParseFailure); }
      out.WriteSigned(v.b, 1);
      return None;
    case LongAdapter =>
      if !v.LongV? { return Some(ParseFailure); }
      out.WriteSigned(v.l, 8);
      return None;
    case IntegerAdapter =>
      if !v.IntV? { return Some(ParseFailure); }
      out.WriteSigned(v.i, 4);
      return None;
    case StringAdapter =>
      if !(v.StringV? && |v.s| <= ShortMax) { return Some(ParseFailure); }
      out.WriteSigned(|v.s|, 2);
      out.Write(v.s);
      return None;
    case _ =>
      return Some(Unmodelled);
  }

  // ---------------------------------------------------------------------
  // The registry's convenience wrappers
  // ---------------------------------------------------------------------

  /** fromByte / fromInt / fromString: the registered adapter reads; any exception gives null. */
  method ReadThrough(env: Env, cls: ClassId, id: int, input: Input) returns (r: Option<Value>)
    modifies input`data
    ensures Read(r, input.data) == FromVia(env, cls, id, old(input.data))
  {
    if cls !in env.registry || !Instantiable(env.registry[cls]) {
      return None;
    }
    var v := LeafFromNBT(env.registry[cls], id, input);
    r := if v.Ok? then Some(v.value) else None;
  }

  /** fromString: a name, or null. */
  method ReadString(env: Env, input: Input) returns (r: Option<Str>)
    modifies input`data
    ensures Read(r, input.data) == FromString(env, old(input.data))
  {
    var v := ReadThrough(env, StringClass, StringId, input);
    r := if v.Some? && v.value.StringV? then Some(v.value.s) else None;
  }

  /** fromInt: a length, or null. */
  method ReadInt(env: Env, input: Input) returns (r: Option<JInt>)
    modifies input`data
    ensures Read(r, input.data) == FromInt(env, old(input.data))
  {
    var v := ReadThrough(env, BoxedInteger, IntId, input);
    r := if v.Some? && v.value.IntV? then Some(v.value.i) else None;
  }

  /** writeByte / writeInt / writeString: the registered adapter writes; its exceptions are swallowed. */
  method WriteThrough(env: Env, cls: ClassId, v: Value, out: Output)
    modifies out`written
    ensures out.written == old(out.written) + WriteVia(env, cls, v)
  {
    if cls in env.registry && Instantiable(env.registry[cls]) {
      var _ := LeafToNBT(env.registry[cls], v, out);
    }
  }

  // ---------------------------------------------------------------------
  // Reading
  // ---------------------------------------------------------------------

  /** adapter.fromNBT(id, payload, type, registry). */
  method FromNBT(env: Env, a: Adapter, id: int, input: Input, token: Token) returns (r: Result<Value>)
    requires DecodeReady(env, a, token)
    modifies input`data
    ensures Read(r, input.data) == Decode(env, a, id, old(input.data), token)
    decreases |input.data|, 3
  {
    match a
    case Instance(k) =>
      if k == ObjectAdapter {
        r := ObjectFromNBT(env, id, input, token);
      } else {
        r := LeafFromNBT(k, id, input);
      }
    case MapAdapter(item, c) =>
      r := MapFromNBTFixed(env, item, c, input, token);
    case ArrayAdapter(content, c) =>
      r := ArrayFromNBT(env, content, c, input);
    case CollectionAdapter(_) =>
      r := Err(Unmodelled);
  }

  /**
   * ObjectAdapter.fromNBT: a new instance, then, until a type byte of 0,
   * a name and the value of the field it selects.
   */
  method ObjectFromNBT(env: Env, id: int, input: Input, token: Token) returns (r: Result<Value>)
    requires Wf(env) && Known(env.u, token)
    modifies input`data
    ensures Read(r, input.data) == ObjectIn(env, id, old(input.data), token)
    decreases |input.data|, 1
  {
    if id != CompoundId || !env.u[token.raw].instantiable {
      return Err(ParseFailure);
    }
    var first := ReadNext(input, 1);
    if first.Err? {
      return Err(ParseFailure);
    }
    var fields := env.u[token.raw].fields;
    DefaultsKeys(fields);
    var acc := Defaults(fields);
    var next := first.value;
    ghost var goal := Fields(env, token, next, input.data, acc);
    while true
      invariant acc.Keys == FieldNames(fields)
      invariant |input.data| < |old(input.data)|
      invariant Fields(env, token, next, input.data, acc) == goal
      invariant goal == ObjectIn(env, id, old(input.data), token)
      decreases |input.data|
    {
      ghost var s := input.data;
      var name := ReadString(env, input);
      if name.None? {
        return Err(ParseFailure);
      }
      var f := FindField(fields, name.value);
      if f.None? {
        if next != 0 {
          continue;
        }
        return Ok(ObjectV(acc));
      }
      var ended, result, acc', next' := FieldFromNBT(env, token, f.value, next, input, acc);
      if ended {
        return result;
      }
      acc, next := acc', next';
    }
  }

  /**
   * The rest of one pass of ObjectAdapter.fromNBT's loop once a name has
   * selected field f: its value, read through the adapter its type resolves
   * to, then the next type byte.  Either the loop ends with r, or it goes on
   * with acc' and next'.
   */
  method FieldFromNBT(env: Env, token: Token, f: Field, next: int, input: Input, acc: map<Str, Value>)
    returns (ended: bool, r: Result<Value>, acc': map<Str, Value>, next': int)
    requires Wf(env) && Known(env.u, token) && f in env.u[token.raw].fields
    requires acc.Keys == FieldNames(env.u[token.raw].fields)
    modifies input`data
    ensures ended ==> Read(r, input.data) == FieldIn(env, token, f, next, old(input.data), acc)
    ensures !ended ==> acc'.Keys == FieldNames(env.u[token.raw].fields) && |input.data| < |old(input.data)|
    ensures !ended ==> Fields(env, token, next', input.data, acc') == FieldIn(env, token, f, next, old(input.data), acc)
    decreases |input.data|, 4
  {
    acc', next' := acc, next;
    var adapter := Resolve(env, f.ty.raw, f.ty);
    var kind := TagSpec.TypeById(next);
    if adapter.Err? || adapter.value.None? || kind.Err? {
      return true, Err(ParseFailure), acc', next';
    }
    var v := FromNBT(env, adapter.value.value, kind.value, input, f.ty);
    if v.Err? {
      return true, Err(Wrapped(v.error)), acc', next';
    }
    var b := ReadNext(input, 1);
    acc' := acc[f.name := v.value];
    if b.Err? {
      return true, Err(ParseFailure), acc', next';
    }
    if b.value == 0 {
      return true, Ok(ObjectV(acc')), acc', next';
    }
    return false, Err(ParseFailure), acc', b.value;
  }

  /** The map adapter's fromNBT up to its return: the map it fills, entry by entry, until a type byte of 0. */
  method MapBodyFromNBT(env: Env, item: Option<Adapter>, c: ClassId, input: Input, token: Token)
    returns (r: Result<map<Str, Value>>)
    requires Wf(env) && Known(env.u, token) && c in env.u && (item.Some? ==> AdapterKnown(env.u, item.value))
    modifies input`data
    ensures Read(r, input.data) == MapBody(env, item, c, old(input.data), token)
    decreases |input.data|, 1
  {
    if !env.u[token.raw].instantiable {
      return Err(ParseFailure);
    }
    var first := ReadNext(input, 1);
    if first.Err? {
      return Err(ParseFailure);
    }
    var acc: map<Str, Value> := map[];
    var next := first.value;
    ghost var goal := Entries(env, item, c, next, input.data, acc);
    while true
      invariant |input.data| < |old(input.data)|
      invariant Entries(env, item, c, next, input.data, acc) == goal
      invariant goal == MapBody(env, item, c, old(input.data), token)
      decreases |input.data|
    {
      var ended, result, acc', next' := EntryFromNBT(env, item, c, next, input, acc);
      if ended {
        return result;
      }
      acc, next := acc', next';
    }
  }

  /**
   * One pass of the map adapter's fromNBT loop: a name, a value read
   * through the item adapter, then the next type byte.  Either the loop
   * ends with r, or it goes on with acc' and next'.
   */
  method EntryFromNBT(env: Env, item: Option<Adapter>, c: ClassId, next: int, input: Input, acc: map<Str, Value>)
    returns (ended: bool, r: Result<map<Str, Value>>, acc': map<Str, Value>, next': int)
    requires Wf(env) && c in env.u && (item.Some? ==> AdapterKnown(env.u, item.value))
    modifies input`data
    ensures ended ==> Read(r, input.data) == Entries(env, item, c, next, old(input.data), acc)
    ensures !ended ==> |input.data| < |old(input.data)|
    ensures !ended ==> Entries(env, item, c, next', input.data, acc') == Entries(env, item, c, next, old(input.data), acc)
    decreases |input.data|, 4
  {
    acc', next' := acc, next;
    var name := ReadString(env, input);
    var kind := TagSpec.TypeById(next);
    if kind.Err? || item.None? {
      return true, Err(ParseFailure), acc', next';
    }
    var v := FromNBT(env, item.value, kind.value, input, Plain(c));
    if v.Err? {
      return true, Err(Wrapped(v.error)), acc', next';
    }
    if name.Some? {
      acc' := acc[name.value := v.value];
    }
    var b := ReadNext(input, 1);
    if b.Err? {
      return true, Err(ParseFailure), acc', next';
    }
    if b.value == 0 {
      return true, Ok(acc'), acc', next';
    }
    return false, Err(ParseFailure), acc', b.value;
  }

  /** The map adapter's fromNBT as written: the map is filled, then null is returned. */
  method MapFromNBT(env: Env, item: Option<Adapter>, c: ClassId, input: Input, token: Token) returns (r: Result<Value>)
    requires Wf(env) && Known(env.u, token) && c in env.u && (item.Some? ==> AdapterKnown(env.u, item.value))
    modifies input`data
    ensures Read(r, input.data) == MapIn(env, item, c, old(input.data), token)
  {
    var body := MapBodyFromNBT(env, item, c, input, token);
    r := if body.Ok? then Ok(Null) else Err(body.error);
  }

  /** The map adapter's fromNBT as evidently intended: the filled map is returned. */
  method MapFromNBTFixed(env: Env, item: Option<Adapter>, c: ClassId, input: Input, token: Token) returns (r: Result<Value>)
    requires Wf(env) && Known(env.u, token) && c in env.u && (item.Some? ==> AdapterKnown(env.u, item.value))
    modifies input`data
    ensures Read(r, input.data) == MapInFixed(env, item, c, old(input.data), token)
    decreases |input.data|, 2
  {
    var body := MapBodyFromNBT(env, item, c, input, token);
    r := if body.Ok? then Ok(MapV(body.value)) else Err(body.error);
  }

  /** The outcome of reading the remaining elements, with the elements already read in front. */
  function Prefixed(pre: seq<Value>, r: Outcome<seq<Value>>): (p: Outcome<seq<Value>>)
  {
    if r.value.Ok? then Read(Ok(pre + r.value.value), r.rest) else r
  }

  /** goal is what reading the remaining m elements from s gives, with pre already read. */
  ghost predicate Pending(env: Env, content: Option<Adapter>, c: ClassId, kind: int, s: seq<Byte>, m: nat,
                          pre: seq<Value>, goal: Outcome<seq<Value>>)
  {
    && Wf(env) && c in env.u && (content.Some? ==> AdapterKnown(env.u, content.value))
    && Prefixed(pre, Elems(env, content, c, kind, s, m)) == goal
  }

  lemma PrefixedNone(r: Outcome<seq<Value>>)
    ensures Prefixed([], r) == r
  {
    if r.value.Ok? {
      assert [] + r.value.value == r.value.value;
    }
  }

  /**
   * Reading one more element: with no content adapter the read fails at
   * once; otherwise the element read moves from the elements still to read
   * to those already read, or its failure ends the read.
   */
  lemma ElemsAt(env: Env, content: Option<Adapter>, c: ClassId, kind: int, s: seq<Byte>, n: nat, pre: seq<Value>)
    requires Wf(env) && c in env.u && (content.Some? ==> AdapterKnown(env.u, content.value)) && n > 0
    ensures content.None? ==> Prefixed(pre, Elems(env, content, c, kind, s, n)) == Read(Err(NullPointer), s)
    ensures content.Some? ==>
      var e := Decode(env, content.value, kind, s, Plain(c));
      Prefixed(pre, Elems(env, content, c, kind, s, n)) ==
        if e.value.Err? then Read(Err(e.value.error), e.rest)
        else Prefixed(pre + [e.value.value], Elems(env, content, c, kind, e.rest, n - 1))
  {
    if content.Some? {
      var e := Decode(env, content.value, kind, s, Plain(c));
      if e.value.Ok? {
        var more := Elems(env, content, c, kind, e.rest, n - 1);
        if more.value.Ok? {
          assert pre + ([e.value.value] + more.value.value) == (pre + [e.value.value]) + more.value.value;
        }
      }
    }
  }

  /**
   * The array adapter's fromNBT: the content kind, the length, then a new
   * Object[length] filled element by element.
   */
  method ArrayFromNBT(env: Env, content: Option<Adapter>, c: ClassId, input: Input) returns (r: Result<Value>)
    requires Wf(env) && c in env.u && (content.Some? ==> AdapterKnown(env.u, content.value))
    modifies input`data
    ensures Read(r, input.data) == ArrayIn(env, content, c, old(input.data))
    decreases |input.data|, 1
  {
    var t := ReadNext(input, 1);
    if t.Err? {
      return Err(ParseFailure);
    }
    var kind := TagSpec.TypeById(t.value);
    if kind.Err? {
      return Err(ParseFailure);
    }
    var n := ReadInt(env, input);
    if n.None? || n.value < 0 {
      return Err(ParseFailure);
    }
    var es := ElemsFromNBT(env, content, c, kind.value, n.value, input);
    r := if es.Ok? then Ok(ArrayV(es.value)) else Err(Wrapped(es.error));
  }

  /** The loop of the array adapter's fromNBT: n elements read by the content adapter into a new array. */
  method ElemsFromNBT(env: Env, content: Option<Adapter>, c: ClassId, kind: int, n: nat, input: Input)
    returns (r: Result<seq<Value>>)
    requires Wf(env) && c in env.u && (content.Some? ==> AdapterKnown(env.u, content.value))
    modifies input`data
    ensures Read(r, input.data) == Elems(env, content, c, kind, old(input.data), n)
    decreases |input.data|, 5
  {
    var elems := new Value[n];
    ghost var goal := Elems(env, content, c, kind, input.data, n);
    PrefixedNone(goal);
    var i := 0;
    ghost var left := n;
    while i < n
      invariant 0 <= i <= n == elems.Length && left == n - i
      invariant |input.data| <= |old(input.data)|
      invariant Pending(env, content, c, kind, input.data, left, elems[..i], goal)
      decreases n - i
    {
      var failure := ElemFromNBT(env, content, c, kind, elems, i, left, goal, input);
      if failure.Some? {
        return Err(failure.value);
      }
      i, left := i + 1, left - 1;
    }
    assert elems[..] + [] == elems[..];
    return Ok(elems[..]);
  }

  /** One pass of the array adapter's loop: out[i] = contentAdapter.fromNBT(...). */
  method ElemFromNBT(env: Env, content: Option<Adapter>, c: ClassId, kind: int, elems: array<Value>, i: nat,
                     ghost left: nat, ghost goal: Outcome<seq<Value>>, input: Input)
    returns (failure: Option<Error>)
    requires Wf(env) && c in env.u && (content.Some? ==> AdapterKnown(env.u, content.value))
    requires i < elems.Length && left == elems.Length - i
    requires Pending(env, content, c, kind, input.data, left, elems[..i], goal)
    modifies elems, input`data
    ensures failure.Some? ==> goal == Read(Err(failure.value), input.data)
    ensures failure.None? ==> |input.data| < |old(input.data)|
    ensures failure.None? ==> Pending(env, content, c, kind, input.data, left - 1, elems[..i + 1], goal)
    decreases |input.data|, 4
  {
    ghost var pre := elems[..i];
    ElemsAt(env, content, c, kind, input.data, left, pre);
    if content.None? {
      return Some(NullPointer);
    }
    var e := FromNBT(env, content.value, kind, input, Plain(c));
    if e.Err? {
      return Some(e.error);
    }
    elems[i] := e.value;
    assert elems[..i + 1] == pre + [e.value];
    return None;
  }

  // ---------------------------------------------------------------------
  // Writing
  // ---------------------------------------------------------------------

  /** Running a, then b, then c is running a followed by b, then c. */
  lemma ThenAssoc(done: seq<Byte>, step: seq<Byte>, more: Emitted)
    ensures Then(Emitted(done, None), Then(Emitted(step, None), more)) == Then(Emitted(done + step, None), more)
  {
    assert done + (step + more.bytes) == (done + step) + more.bytes;
  }

  /** adapter.toNBT(out, object, type, registry). */
  method ToNBT(env: Env, a: Adapter, v: Value, token: Token, out: Output) returns (failure: Option<Error>)
    requires DecodeReady(env, a, token)
    modifies out`written
    ensures out.written == old(out.written) + Encode(env, a, v, token).bytes
    ensures failure == Encode(env, a, v, token).failure
    decreases v, 2
  {
    match a
    case Instance(k) =>
      if k == ObjectAdapter {
        failure := ObjectToNBT(env, v, token, out);
      } else {
        failure := LeafToNBT(k, v, out);
      }
    case MapAdapter(item, c) =>
      failure := MapToNBT(env, item, c, v, out);
    case ArrayAdapter(content, c) =>
      failure := ArrayToNBT(env, content, c, v, out);
    case CollectionAdapter(_) =>
      failure := Some(Unmodelled);
  }

  /** ObjectAdapter.toNBT: each declared field in turn, then a closing 0. */
  method ObjectToNBT(env: Env, v: Value, token: Token, out: Output) returns (failure: Option<Error>)
    requires Wf(env) && Known(env.u, token)
    modifies out`written
    ensures out.written == old(out.written) + ObjectOut(env, v, token).bytes
    ensures failure == ObjectOut(env, v, token).failure
    decreases v, 1
  {
    var failed := FieldsToNBT(env, v, token, out);
    if failed.Some? {
      return Some(Wrapped(failed.value));
    }
    SmallByteEncoding(0);
    out.WriteSigned(0, 1);
    return None;
  }

  /** The loop of ObjectAdapter.toNBT over the declared fields; failed is the exception that left it. */
  method FieldsToNBT(env: Env, v: Value, token: Token, out: Output) returns (failed: Option<Error>)
    requires Wf(env) && Known(env.u, token)
    modifies out`written
    ensures out.written == old(out.written) + FieldsOut(env, v, token, 0).bytes
    ensures failed == FieldsOut(env, v, token, 0).failure
    decreases v, 0, 2
  {
    var fields := env.u[token.raw].fields;
    ghost var start := out.written;
    ghost var goal := FieldsOut(env, v, token, 0);
    ghost var done: seq<Byte> := [];
    ThenNothing(goal);
    var i := 0;
    while i < |fields|
      invariant i <= |fields|
      invariant out.written == start + done
      invariant goal == Then(Emitted(done, None), FieldsOut(env, v, token, i))
    {
      var failure;
      failure, done := FieldToNBT(env, v, token, i, start, done, goal, out);
      if failure.Some? {
        return failure;
      }
      i := i + 1;
    }
    ThenEmpty(done, FieldsOut(env, v, token, i));
    return None;
  }

  /** One pass of ObjectAdapter.toNBT's loop: field i's adapter id, its wire name, its value. */
  method FieldToNBT(env: Env, v: Value, token: Token, i: nat, ghost start: seq<Byte>, ghost done: seq<Byte>,
                    ghost goal: Emitted, out: Output)
    returns (failure: Option<Error>, ghost done': seq<Byte>)
    requires Wf(env) && Known(env.u, token) && i < |env.u[token.raw].fields|
    requires out.written == start + done
    requires goal == Then(Emitted(done, None), FieldsOut(env, v, token, i))
    modifies out`written
    ensures failure.None? ==> out.written == start + done'
    ensures failure.None? ==> goal == Then(Emitted(done', None), FieldsOut(env, v, token, i + 1))
    ensures failure.Some? ==> out.written == start + goal.bytes && goal.failure == failure
    decreases v, 0, 1
  {
    done' := done;
    FieldsOutAt(env, v, token, i, done);
    var f := env.u[token.raw].fields[i];
    FieldKnown(env, token, i);
    var adapter := Resolve(env, f.ty.raw, f.ty);
    if adapter.Err? || adapter.value.None? {
      return Some(ParseFailure), done';
    }
    var a := adapter.value.value;
    out.WriteSigned(GetId(a), 1);
    WriteThrough(env, StringClass, StringV(WireName(f)), out);
    ConcatAssoc4(start, done, EncodeSigned(GetId(a), 1), WriteVia(env, StringClass, StringV(WireName(f))));
    var failed := FieldValueToNBT(env, a, v, f, out);
    if !(v.ObjectV? && f.name in v.fields) {
      return failed, done';
    }
    ConcatAssoc5(start, done, EncodeSigned(GetId(a), 1), WriteVia(env, StringClass, StringV(WireName(f))),
                 Encode(env, a, v.fields[f.name], f.ty).bytes);
    if failed.Some? {
      return failed, done';
    }
    done' := ((done + EncodeSigned(GetId(a), 1)) + WriteVia(env, StringClass, StringV(WireName(f))))
             + Encode(env, a, v.fields[f.name], f.ty).bytes;
    return None, done';
  }

  /** The value of field f, read from the object v and written by its adapter a; a missing value fails. */
  method FieldValueToNBT(env: Env, a: Adapter, v: Value, f: Field, out: Output) returns (failure: Option<Error>)
    requires DecodeReady(env, a, f.ty)
    modifies out`written
    ensures !(v.ObjectV? && f.name in v.fields) ==> failure == Some(ParseFailure) && out.written == old(out.written)
    ensures v.ObjectV? && f.name in v.fields ==>
      out.written == old(out.written) + Encode(env, a, v.fields[f.name], f.ty).bytes &&
      failure == Encode(env, a, v.fields[f.name], f.ty).failure
    decreases v, 0, 0
  {
    if !(v.ObjectV? && f.name in v.fields) {
      return Some(ParseFailure);
    }
    failure := ToNBT(env, a, v.fields[f.name], f.ty, out);
  }

  /** Nothing written yet: the whole of r is still to come. */
  lemma ThenNothing(r: Emitted)
    ensures r == Then(Emitted([], None), r)
  {
    assert [] + r.bytes == r.bytes;
  }

  /** Nothing left to write: what was written is the whole. */
  lemma ThenEmpty(done: seq<Byte>, r: Emitted)
    requires r == Emitted([], None)
    ensures Then(Emitted(done, None), r) == Emitted(done, None)
  {
    assert done + [] == done;
  }

  /**
   * Field i written after done: the resolution failure, the value that has
   * no such field, the value's failure, or the fields after it.
   */
  lemma FieldsOutAt(env: Env, v: Value, token: Token, i: nat, done: seq<Byte>)
    requires Wf(env) && Known(env.u, token) && i < |env.u[token.raw].fields|
    ensures
      var f := env.u[token.raw].fields[i];
      var adapter := Resolve(env, f.ty.raw, f.ty);
      var whole := Then(Emitted(done, None), FieldsOut(env, v, token, i));
      if adapter.Err? || adapter.value.None? then whole == Emitted(done, Some(ParseFailure))
      else
        var a := adapter.value.value;
        var named := (done + EncodeSigned(GetId(a), 1)) + WriteVia(env, StringClass, StringV(WireName(f)));
        if !(v.ObjectV? && f.name in v.fields) then whole == Emitted(named, Some(ParseFailure))
        else
          var value := Encode(env, a, v.fields[f.name], f.ty);
          if value.failure.Some? then whole == Emitted(named + value.bytes, value.failure)
          else whole == Then(Emitted(named + value.bytes, None), FieldsOut(env, v, token, i + 1))
  {
    var f := env.u[token.raw].fields[i];
    FieldKnown(env, token, i);
    var adapter := Resolve(env, f.ty.raw, f.ty);
    if adapter.Err? || adapter.value.None? {
      assert done + [] == done;
    } else {
      var a := adapter.value.value;
      var id := EncodeSigned(GetId(a), 1);
      var name := WriteVia(env, StringClass, StringV(WireName(f)));
      ConcatAssoc(done, id, name);
      if v.ObjectV? && f.name in v.fields {
        var value := Encode(env, a, v.fields[f.name], f.ty);
        ConcatAssoc4(done, id, name, value.bytes);
        if value.failure.None? {
          ThenAssoc(done, (id + name) + value.bytes, FieldsOut(env, v, token, i + 1));
        }
      }
    }
  }

  /** The map adapter's toNBT: each entry in the map's iteration order, then a 0; its exceptions propagate. */
  method MapToNBT(env: Env, item: Option<Adapter>, c: ClassId, v: Value, out: Output) returns (failure: Option<Error>)
    requires Wf(env) && c in env.u && (item.Some? ==> AdapterKnown(env.u, item.value))
    modifies out`written
    ensures out.written == old(out.written) + MapOut(env, item, c, v).bytes
    ensures failure == MapOut(env, item, c, v).failure
    decreases v, 1
  {
    if v.Null? {
      return Some(NullPointer);
    }
    if !v.MapV? {
      return Some(ClassCast);
    }
    ghost var start := out.written;
    var keys := KeyOrder.Order(v.entries.Keys);
    failure := EntriesToNBT(env, item, c, v, keys, out);
    if failure.Some? {
      return failure;
    }
    WriteThrough(env, BoxedByte, ByteV(0), out);
    ConcatAssoc(start, EntriesOut(env, item, c, v, keys, 0).bytes, WriteVia(env, BoxedByte, ByteV(0)));
  }

  /** The loop of the map adapter's toNBT over the entries in the order keys lists them. */
  method EntriesToNBT(env: Env, item: Option<Adapter>, c: ClassId, v: Value, keys: seq<Str>, out: Output)
    returns (failure: Option<Error>)
    requires Wf(env) && c in env.u && (item.Some? ==> AdapterKnown(env.u, item.value))
    requires v.MapV? && forall k :: k in keys ==> k in v.entries
    modifies out`written
    ensures out.written == old(out.written) + EntriesOut(env, item, c, v, keys, 0).bytes
    ensures failure == EntriesOut(env, item, c, v, keys, 0).failure
    decreases v, 0, 1
  {
    ghost var start := out.written;
    ghost var goal := EntriesOut(env, item, c, v, keys, 0);
    ghost var done: seq<Byte> := [];
    ThenNothing(goal);
    var i := 0;
    while i < |keys|
      invariant i <= |keys|
      invariant out.written == start + done
      invariant goal == Then(Emitted(done, None), EntriesOut(env, item, c, v, keys, i))
    {
      failure, done := EntryToNBT(env, item, c, v, keys, i, start, done, goal, out);
      if failure.Some? {
        return failure;
      }
      i := i + 1;
    }
    ThenEmpty(done, EntriesOut(env, item, c, v, keys, i));
    return None;
  }

  /** One pass of the map adapter's toNBT loop: the item adapter's id, the key, the value. */
  method EntryToNBT(env: Env, item: Option<Adapter>, c: ClassId, v: Value, keys: seq<Str>, i: nat,
                    ghost start: seq<Byte>, ghost done: seq<Byte>, ghost goal: Emitted, out: Output)
    returns (failure: Option<Error>, ghost done': seq<Byte>)
    requires Wf(env) && c in env.u && (item.Some? ==> AdapterKnown(env.u, item.value))
    requires v.MapV? && (forall k :: k in keys ==> k in v.entries) && i < |keys|
    requires out.written == start + done
    requires goal == Then(Emitted(done, None), EntriesOut(env, item, c, v, keys, i))
    modifies out`written
    ensures failure.None? ==> out.written == start + done'
    ensures failure.None? ==> goal == Then(Emitted(done', None), EntriesOut(env, item, c, v, keys, i + 1))
    ensures failure.Some? ==> out.written == start + goal.bytes && failure == goal.failure
    decreases v, 0, 0
  {
    done' := done;
    if item.None? {
      return Some(NullPointer), done';
    }
    EntriesOutAt(env, item, c, v, keys, i, done);
    WriteThrough(env, BoxedByte, ByteV(ToJByte(GetId(item.value))), out);
    WriteThrough(env, StringClass, StringV(keys[i]), out);
    assert keys[i] in keys;
    failure := ToNBT(env, item.value, v.entries[keys[i]], Plain(c), out);
    ConcatAssoc5(start, done, WriteVia(env, BoxedByte, ByteV(ToJByte(GetId(item.value)))), WriteVia(env, StringClass, StringV(keys[i])),
                 Encode(env, item.value, v.entries[keys[i]], Plain(c)).bytes);
    done' := ((done + WriteVia(env, BoxedByte, ByteV(ToJByte(GetId(item.value))))) + WriteVia(env, StringClass, StringV(keys[i])))
             + Encode(env, item.value, v.entries[keys[i]], Plain(c)).bytes;
  }

  /** Entry i written after done: the item adapter's id, the key, then the value's failure or the entries after it. */
  lemma EntriesOutAt(env: Env, item: Option<Adapter>, c: ClassId, v: Value, keys: seq<Str>, i: nat, done: seq<Byte>)
    requires Wf(env) && c in env.u && (item.Some? ==> AdapterKnown(env.u, item.value))
    requires v.MapV? && (forall k :: k in keys ==> k in v.entries) && i < |keys| && item.Some?
    ensures keys[i] in v.entries
    ensures
      var value := Encode(env, item.value, v.entries[keys[i]], Plain(c));
      var step := ((done + WriteVia(env, BoxedByte, ByteV(ToJByte(GetId(item.value))))) + WriteVia(env, StringClass, StringV(keys[i]))) + value.bytes;
      Then(Emitted(done, None), EntriesOut(env, item, c, v, keys, i)) ==
        if value.failure.Some? then Emitted(step, value.failure) else Then(Emitted(step, None), EntriesOut(env, item, c, v, keys, i + 1))
  {
    assert keys[i] in keys;
    var value := Encode(env, item.value, v.entries[keys[i]], Plain(c));
    var id := WriteVia(env, BoxedByte, ByteV(ToJByte(GetId(item.value))));
    var key := WriteVia(env, StringClass, StringV(keys[i]));
    ConcatAssoc4(done, id, key, value.bytes);
    if value.failure.None? {
      ThenAssoc(done, (id + key) + value.bytes, EntriesOut(env, item, c, v, keys, i + 1));
    }
  }

  /** The array adapter's toNBT: the content adapter's id, the length, then each element. */
  method ArrayToNBT(env: Env, content: Option<Adapter>, c: ClassId, v: Value, out: Output) returns (failure: Option<Error>)
    requires Wf(env) && c in env.u && (content.Some? ==> AdapterKnown(env.u, content.value))
    modifies out`written
    ensures out.written == old(out.written) + ArrayOut(env, content, c, v).bytes
    ensures failure == ArrayOut(env, content, c, v).failure
    decreases v, 1
  {
    if !(v.Null? || v.ArrayV?) || content.None? {
      return Some(ParseFailure);
    }
    ghost var start := out.written;
    WriteThrough(env, BoxedByte, ByteV(ToJByte(GetId(content.value))), out);
    if v.Null? {
      return Some(ParseFailure);
    }
    WriteThrough(env, BoxedInteger, IntV(ToJInt(|v.elems|)), out);
    var failed := ElemsToNBT(env, content.value, c, v, out);
    ConcatAssoc4(start, WriteVia(env, BoxedByte, ByteV(ToJByte(GetId(content.value)))), WriteVia(env, BoxedInteger, IntV(ToJInt(|v.elems|))),
                 ElemsOut(env, content.value, c, v, 0).bytes);
    return if failed.Some? then Some(Wrapped(failed.value)) else None;
  }

  /** The loop of the array adapter's toNBT over the elements; failed is the exception that left it. */
  method ElemsToNBT(env: Env, content: Adapter, c: ClassId, v: Value, out: Output) returns (failed: Option<Error>)
    requires Wf(env) && c in env.u && AdapterKnown(env.u, content) && v.ArrayV?
    modifies out`written
    ensures out.written == old(out.written) + ElemsOut(env, content, c, v, 0).bytes
    ensures failed == ElemsOut(env, content, c, v, 0).failure
    decreases v, 0, 1
  {
    ghost var start := out.written;
    ghost var goal := ElemsOut(env, content, c, v, 0);
    ghost var done: seq<Byte> := [];
    ThenNothing(goal);
    var i := 0;
    while i < |v.elems|
      invariant i <= |v.elems|
      invariant out.written == start + done
      invariant goal == Then(Emitted(done, None), ElemsOut(env, content, c, v, i))
    {
      var failure;
      failure, done := ElemToNBT(env, content, c, v, i, start, done, goal, out);
      if failure.Some? {
        return failure;
      }
      i := i + 1;
    }
    ThenEmpty(done, ElemsOut(env, content, c, v, i));
    return None;
  }

  /** One pass of the array adapter's toNBT loop: element i through the content adapter. */
  method ElemToNBT(env: Env, content: Adapter, c: ClassId, v: Value, i: nat, ghost start: seq<Byte>, ghost done: seq<Byte>,
                   ghost goal: Emitted, out: Output)
    returns (failure: Option<Error>, ghost done': seq<Byte>)
    requires Wf(env) && c in env.u && AdapterKnown(env.u, content) && v.ArrayV? && i < |v.elems|
    requires out.written == start + done
    requires goal == Then(Emitted(done, None), ElemsOut(env, content, c, v, i))
    modifies out`written
    ensures failure.None? ==> out.written == start + done'
    ensures failure.None? ==> goal == Then(Emitted(done', None), ElemsOut(env, content, c, v, i + 1))
    ensures failure.Some? ==> out.written == start + goal.bytes && goal.failure == failure
    decreases v, 0, 0
  {
    ElemsOutAt(env, content, c, v, i, done);
    var failed := ToNBT(env, content, v.elems[i], Plain(c), out);
    ConcatAssoc(start, done, Encode(env, content, v.elems[i], Plain(c)).bytes);
    done' := done + Encode(env, content, v.elems[i], Plain(c)).bytes;
    return failed, done';
  }

  /** Element i written after done: its failure, or the elements after it. */
  lemma ElemsOutAt(env: Env, content: Adapter, c: ClassId, v: Value, i: nat, done: seq<Byte>)
    requires Wf(env) && c in env.u && AdapterKnown(env.u, content) && v.ArrayV? && i < |v.elems|
    ensures
      var value := Encode(env, content, v.elems[i], Plain(c));
      Then(Emitted(done, None), ElemsOut(env, content, c, v, i)) ==
        if value.failure.Some? then Emitted(done + value.bytes, value.failure)
        else Then(Emitted(done + value.bytes, None), ElemsOut(env, content, c, v, i + 1))
  {
    var value := Encode(env, content, v.elems[i], Plain(c));
    if value.failure.None? {
      ThenAssoc(done, value.bytes, ElemsOut(env, content, c, v, i + 1));
    }
  }
}
