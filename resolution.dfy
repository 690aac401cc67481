// How AdapterRegistry finds the adapter for a type
// (src/main/java/mryurihi/tbnbt/adapter/AdapterRegistry.java): the default
// tables its constructor fills, and the private getAdapterForObject cascade
// over primitives, the registry, the factories, the generic interfaces and
// the superclass, with the top-level type token handed down unchanged.
module Resolution {
  import opened Bytes
  import opened AdapterTypes

  /** The registry's classes, in the order the constructor registers them ... */
  const RegisteredClasses: seq<ClassId> := [
    BoxedByte, BoxedShort, BoxedInteger, BoxedLong, BoxedFloat, BoxedDouble,
    BoxedByteArray, ByteArrayClass, StringClass, ObjectClass,
    BoxedIntegerArray, IntArrayClass, BoxedLongArray, LongArrayClass]

  /** ... and the adapter registered for each, at the same position. */
  const RegisteredAdapters: seq<AdapterClass> := [
    ByteAdapter, ShortAdapter, IntegerAdapter, LongAdapter, FloatAdapter, DoubleAdapter,
    ByteArrayAdapter, PrimitiveByteArrayAdapter, StringAdapter, ObjectAdapter,
    IntegerArrayAdapter, PrimitiveIntArrayAdapter, LongArrayAdapter, PrimitiveLongArrayAdapter]

  predicate DistinctClasses(cs: seq<ClassId>)
  {
    forall i, j :: 0 <= i < j < |cs| ==> cs[i] != cs[j]
  }

  /** registry.put(cs[i], as[i]) for i from 0 up. */
  function PutAll(cs: seq<ClassId>, ks: seq<AdapterClass>): (m: map<ClassId, AdapterClass>)
    requires |cs| == |ks|
    ensures forall c :: c in m <==> c in cs
    ensures forall c :: c in m ==> m[c] in ks
  {
    if cs == [] then map[]
    else PutAll(cs[..|cs| - 1], ks[..|ks| - 1])[cs[|cs| - 1] := ks[|ks| - 1]]
  }

  /** Registering the pairs up to position i, then the pair at i. */
  lemma PutAllSnoc(cs: seq<ClassId>, ks: seq<AdapterClass>, i: nat)
    requires |cs| == |ks| && i < |cs|
    ensures PutAll(cs[..i + 1], ks[..i + 1]) == PutAll(cs[..i], ks[..i])[cs[i] := ks[i]]
  {
    assert cs[..i + 1][..i] == cs[..i];
    assert ks[..i + 1][..i] == ks[..i];
  }

  /** A class registered at position i and never again afterwards maps to the adapter registered with it. */
  lemma {:induction false} PutAllAt(cs: seq<ClassId>, ks: seq<AdapterClass>, i: nat)
    requires |cs| == |ks| && i < |cs|
    requires forall j :: i < j < |cs| ==> cs[j] != cs[i]
    ensures cs[i] in PutAll(cs, ks) && PutAll(cs, ks)[cs[i]] == ks[i]
    decreases |cs|
  {
    var n := |cs| - 1;
    if i < n {
      assert cs[..n][i] == cs[i] && ks[..n][i] == ks[i];
      PutAllAt(cs[..n], ks[..n], i);
      assert PutAll(cs, ks) == PutAll(cs[..n], ks[..n])[cs[n] := ks[n]];
      assert cs[n] != cs[i];
    }
  }

  /** The registry a new AdapterRegistry starts with. */
  function DefaultRegistry(): (m: map<ClassId, AdapterClass>)
    ensures forall c :: c in m <==> c in RegisteredClasses
    ensures forall c :: c in m ==> !m[c].CustomAdapter? && Instantiable(m[c])
  {
    PutAll(RegisteredClasses, RegisteredAdapters)
  }

  /** The factories a new AdapterRegistry starts with. */
  function DefaultFactories(): (m: map<ClassId, FactoryKind>)
    ensures m.Keys == {CollectionClass, ObjectArrayClass, MapClass}
  {
    map[CollectionClass := CollectionFactory, ObjectArrayClass := ArrayFactory, MapClass := MapFactory]
  }

  /** The default registry holds exactly the fourteen classes, each with the adapter at its own position. */
  lemma DefaultRegistryPositional()
    ensures forall c :: c in DefaultRegistry() <==> c in RegisteredClasses
    ensures forall i :: 0 <= i < |RegisteredClasses| ==> DefaultRegistry()[RegisteredClasses[i]] == RegisteredAdapters[i]
  {
    RegisteredOnce();
    forall i | 0 <= i < |RegisteredClasses|
      ensures DefaultRegistry()[RegisteredClasses[i]] == RegisteredAdapters[i]
    {
      PutAllAt(RegisteredClasses, RegisteredAdapters, i);
    }
  }

  /** No class is registered twice by the constructor. */
  lemma RegisteredOnce()
    ensures DistinctClasses(RegisteredClasses)
  {
    assert forall i :: 0 <= i < |RegisteredClasses| ==> Registration(RegisteredClasses[i]) == i;
  }

  /** The position at which the constructor registers c, or -1 when it does not. */
  function Registration(c: ClassId): int
  {
    match c
    case BoxedByte => 0
    case BoxedShort => 1
    case BoxedInteger => 2
    case BoxedLong => 3
    case BoxedFloat => 4
    case BoxedDouble => 5
    case BoxedByteArray => 6
    case ByteArrayClass => 7
    case StringClass => 8
    case ObjectClass => 9
    case BoxedIntegerArray => 10
    case IntArrayClass => 11
    case BoxedLongArray => 12
    case LongArrayClass => 13
    case _ => -1
  }

  /** The entries of the default registry the adapters themselves consult. */
  lemma DefaultLookups()
    ensures DefaultRegistry()[BoxedByte] == ByteAdapter && DefaultRegistry()[BoxedInteger] == IntegerAdapter
    ensures DefaultRegistry()[BoxedLong] == LongAdapter && DefaultRegistry()[StringClass] == StringAdapter
    ensures DefaultRegistry()[ObjectClass] == ObjectAdapter
    ensures DefaultRegistry()[BoxedIntegerArray] == IntegerArrayAdapter
    ensures DefaultRegistry()[BoxedLongArray] == LongArrayAdapter
  {
    RegisteredAt();
    DefaultEntry(0); DefaultEntry(2); DefaultEntry(3); DefaultEntry(8);
    DefaultEntry(9); DefaultEntry(10); DefaultEntry(12);
  }

  /** The registrations the lookups above use, by position. */
  lemma RegisteredAt()
    ensures RegisteredClasses[0] == BoxedByte && RegisteredAdapters[0] == ByteAdapter
    ensures RegisteredClasses[2] == BoxedInteger && RegisteredAdapters[2] == IntegerAdapter
    ensures RegisteredClasses[3] == BoxedLong && RegisteredAdapters[3] == LongAdapter
    ensures RegisteredClasses[8] == StringClass && RegisteredAdapters[8] == StringAdapter
    ensures RegisteredClasses[9] == ObjectClass && RegisteredAdapters[9] == ObjectAdapter
    ensures RegisteredClasses[10] == BoxedIntegerArray && RegisteredAdapters[10] == IntegerArrayAdapter
    ensures RegisteredClasses[12] == BoxedLongArray && RegisteredAdapters[12] == LongArrayAdapter
  {
  }

  /** The i-th default registration is in a new registry. */
  lemma DefaultEntry(i: nat)
    requires i < |RegisteredClasses|
    ensures RegisteredClasses[i] in DefaultRegistry()
    ensures DefaultRegistry()[RegisteredClasses[i]] == RegisteredAdapters[i]
  {
    DefaultRegistryPositional();
  }

  /** The registry and factories the cascade consults, and the class graph reflection would show it. */
  datatype Env = Env(registry: map<ClassId, AdapterClass>, factory: map<ClassId, FactoryKind>, u: Universe)

  /** The adapters a primitive class gets before any table is consulted; char and void get none. */
  function FixedPrimitive(c: ClassId): (k: Option<AdapterClass>)
    ensures k.Some? ==> c.Prim?
  {
    match c
    case Prim(PByte) => Some(ByteAdapter)
    case Prim(PShort) => Some(ShortAdapter)
    case Prim(PInt) => Some(IntegerAdapter)
    case Prim(PLong) => Some(LongAdapter)
    case Prim(PFloat) => Some(FloatAdapter)
    case Prim(PDouble) => Some(DoubleAdapter)
    case Prim(PBoolean) => Some(BooleanAdapter)
    case _ => None
  }

  /** 1 while the top-level type still has type arguments for a factory to take apart. */
  function Depth(t: Token): nat
  {
    if |t.args| > 0 then 1 else 0
  }

  predicate Ready(env: Env, cur: ClassId, top: Token)
  {
    Hierarchy(env.u) && cur in env.u && Known(env.u, top)
  }

  /**
   * getAdapterForObject(objectTypeToken, topTypeToken) with cur the raw type
   * of objectTypeToken.  Ok(None) is a null return; Err is an exception
   * thrown by a factory's create.
   */
  function Resolve(env: Env, cur: ClassId, top: Token): (r: Result<Option<Adapter>>)
    requires Ready(env, cur, top)
    ensures r.Ok? && r.value.Some? ==> AdapterKnown(env.u, r.value.value)
    decreases Depth(top), env.u[top.raw].rank, env.u[cur].rank, 2
  {
    if FixedPrimitive(cur).Some? then Ok(Some(Instance(FixedPrimitive(cur).value)))
    else if cur in env.registry then
      // newInstance failing is caught and printed; the search goes on at the superclass
      if Instantiable(env.registry[cur]) then Ok(Some(Instance(env.registry[cur])))
      else ViaSuperclass(env, cur, top)
    else if cur in env.factory then Create(env, env.factory[cur], top)
    else if |env.u[cur].interfaces| != 0 then
      var w := Walk(env, cur, 0, top);
      if w.Err? || w.value.Some? then w else ViaSuperclass(env, cur, top)
    else ViaSuperclass(env, cur, top)
  }

  /** The generic interfaces of owner from position i on, in declaration order: the first non-null adapter wins. */
  function Walk(env: Env, owner: ClassId, i: nat, top: Token): (r: Result<Option<Adapter>>)
    requires Ready(env, owner, top)
    ensures r.Ok? && r.value.Some? ==> AdapterKnown(env.u, r.value.value)
    decreases Depth(top), env.u[top.raw].rank, env.u[owner].rank, 1, |env.u[owner].interfaces| - i
  {
    var ifaces := env.u[owner].interfaces;
    if i >= |ifaces| then Ok(None)
    else
      var a := Resolve(env, ifaces[i], top);
      if a.Err? || a.value.Some? then a else Walk(env, owner, i + 1, top)
  }

  /** The search one class up; a class without a superclass gets null. */
  function ViaSuperclass(env: Env, cur: ClassId, top: Token): (r: Result<Option<Adapter>>)
    requires Ready(env, cur, top)
    ensures r.Ok? && r.value.Some? ==> AdapterKnown(env.u, r.value.value)
    decreases Depth(top), env.u[top.raw].rank, env.u[cur].rank, 0
  {
    var sup := env.u[cur].superclass;
    if sup.None? then Ok(None) else Resolve(env, sup.value, top)
  }

  /**
   * NBTAdapterFactory.create(registry, topTypeToken).  The map factory
   * casts the top type to a parameterized type and resolves its second type
   * argument; the array factory resolves the component type of the top
   * type's raw class.  The collection factory's code is not part of this
   * model: it is kept as an adapter that remembers the top type.
   */
  function Create(env: Env, kind: FactoryKind, top: Token): (r: Result<Option<Adapter>>)
    requires Hierarchy(env.u) && Known(env.u, top)
    ensures r.Ok? ==> r.value.Some? && AdapterKnown(env.u, r.value.value)
    decreases Depth(top), env.u[top.raw].rank, 0, 0
  {
    match kind
    case MapFactory =>
      if |top.args| == 0 then Err(ClassCast)
      else if |top.args| < 2 then Err(IndexOutOfBounds)
      else
        var item := Resolve(env, top.args[1], Plain(top.args[1]));
        if item.Err? then Err(item.error) else Ok(Some(MapAdapter(item.value, top.args[1])))
    case ArrayFactory =>
      var comp := env.u[top.raw].component;
      if comp.None? then Err(NullPointer)
      else
        var content := Resolve(env, comp.value, Plain(comp.value));
        if content.Err? then Err(content.error) else Ok(Some(ArrayAdapter(content.value, comp.value)))
    case CollectionFactory => Ok(Some(CollectionAdapter(top)))
  }

  /** getAdapterForObject(token): the cascade started at the token itself. */
  function AdapterFor(env: Env, token: Token): (r: Result<Option<Adapter>>)
    requires Hierarchy(env.u) && Known(env.u, token)
    ensures r.Ok? && r.value.Some? ==> AdapterKnown(env.u, r.value.value)
  {
    Resolve(env, token.raw, token)
  }

  // ---------------------------------------------------------------------
  // What the cascade guarantees
  // ---------------------------------------------------------------------

  /** The adapters the primitive classes get. */
  const FixedAdapters: set<AdapterClass> :=
    {ByteAdapter, ShortAdapter, IntegerAdapter, LongAdapter, FloatAdapter, DoubleAdapter, BooleanAdapter}

  /**
   * What the cascade can hand out for the top-level type top: an instance
   * of a primitive's fixed adapter or of a class the registry holds; a map
   * adapter whose items have the top type's second type argument; an array
   * adapter whose items have the component type of the top type's class; a
   * collection adapter for the top type itself.
   */
  predicate Sound(env: Env, r: Result<Option<Adapter>>, top: Token)
    requires Known(env.u, top)
  {
    r.Ok? && r.value.Some? ==>
      match r.value.value
      case Instance(k) => k in FixedAdapters || k in env.registry.Values
      case MapAdapter(_, c) => |top.args| >= 2 && c == top.args[1]
      case ArrayAdapter(_, c) => env.u[top.raw].component == Some(c)
      case CollectionAdapter(t) => t == top
  }

  /**
   * Whichever class along the way supplies the adapter, a factory builds it
   * from the top-level type, never from the class at which it was found.
   */
  lemma {:induction false} ResolveSound(env: Env, cur: ClassId, top: Token)
    requires Ready(env, cur, top)
    ensures Sound(env, Resolve(env, cur, top), top)
    decreases Depth(top), env.u[top.raw].rank, env.u[cur].rank, 2
  {
    if FixedPrimitive(cur).Some? {
    } else if cur in env.registry {
      if !Instantiable(env.registry[cur]) {
        SuperclassSound(env, cur, top);
      }
    } else if cur in env.factory {
      CreateSound(env, env.factory[cur], top);
    } else if |env.u[cur].interfaces| != 0 {
      WalkSound(env, cur, 0, top);
      SuperclassSound(env, cur, top);
    } else {
      SuperclassSound(env, cur, top);
    }
  }

  lemma CreateSound(env: Env, kind: FactoryKind, top: Token)
    requires Hierarchy(env.u) && Known(env.u, top)
    ensures Sound(env, Create(env, kind, top), top)
  {
  }

  lemma {:induction false} WalkSound(env: Env, owner: ClassId, i: nat, top: Token)
    requires Ready(env, owner, top)
    ensures Sound(env, Walk(env, owner, i, top), top)
    decreases Depth(top), env.u[top.raw].rank, env.u[owner].rank, 1, |env.u[owner].interfaces| - i
  {
    var ifaces := env.u[owner].interfaces;
    if i < |ifaces| {
      ResolveSound(env, ifaces[i], top);
      WalkSound(env, owner, i + 1, top);
    }
  }

  lemma {:induction false} SuperclassSound(env: Env, cur: ClassId, top: Token)
    requires Ready(env, cur, top)
    ensures Sound(env, ViaSuperclass(env, cur, top), top)
    decreases Depth(top), env.u[top.raw].rank, env.u[cur].rank, 0
  {
    var sup := env.u[cur].superclass;
    if sup.Some? {
      ResolveSound(env, sup.value, top);
    }
  }

  /**
   * No class from c up its superclass chain has an adapter of its own: none
   * is a primitive with a fixed adapter, a registry key whose adapter can be
   * instantiated, or a factory key the cascade gets to (one that is not also
   * a registry key).
   */
  predicate NoAdapterUpFrom(env: Env, c: ClassId)
    requires Hierarchy(env.u) && c in env.u
    decreases env.u[c].rank
  {
    && FixedPrimitive(c).None?
    && !(c in env.registry && Instantiable(env.registry[c]))
    && (c in env.factory ==> c in env.registry)
    && (env.u[c].superclass.Some? ==> NoAdapterUpFrom(env, env.u[c].superclass.value))
  }

  /** getAdapterForObject returns null only when nothing up the superclass chain has an adapter. */
  lemma {:induction false} NullOnlyWithoutAdapterUp(env: Env, cur: ClassId, top: Token)
    requires Ready(env, cur, top)
    requires Resolve(env, cur, top) == Ok(None)
    ensures NoAdapterUpFrom(env, cur)
    decreases env.u[cur].rank
  {
    var sup := env.u[cur].superclass;
    assert ViaSuperclass(env, cur, top) == Ok(None);
    if sup.Some? {
      NullOnlyWithoutAdapterUp(env, sup.value, top);
    }
  }

  /** a is c itself or one of c's superclasses. */
  predicate UpFrom(u: Universe, c: ClassId, a: ClassId)
    requires Hierarchy(u) && c in u
    decreases u[c].rank
  {
    c == a || (u[c].superclass.Some? && UpFrom(u, u[c].superclass.value, a))
  }

  lemma {:induction false} NoAdapterAbove(env: Env, c: ClassId, a: ClassId)
    requires Hierarchy(env.u) && c in env.u
    requires NoAdapterUpFrom(env, c) && UpFrom(env.u, c, a)
    ensures !(a in env.registry && Instantiable(env.registry[a]))
    decreases env.u[c].rank
  {
    if c != a {
      NoAdapterAbove(env, env.u[c].superclass.value, a);
    }
  }

  /**
   * With an instantiable adapter registered for Object, as in the default
   * registry, every class whose superclass chain reaches Object gets an
   * adapter (or an exception), never null.
   */
  lemma ObjectCatchesAll(env: Env, cur: ClassId, top: Token)
    requires Ready(env, cur, top)
    requires ObjectClass in env.registry && Instantiable(env.registry[ObjectClass])
    requires UpFrom(env.u, cur, ObjectClass)
    ensures Resolve(env, cur, top) != Ok(None)
  {
    if Resolve(env, cur, top) == Ok(None) {
      NullOnlyWithoutAdapterUp(env, cur, top);
      NoAdapterAbove(env, cur, ObjectClass);
    }
  }

  /** None of the interfaces of owner from position i up to j yields an adapter (or an exception). */
  predicate NoneBefore(env: Env, owner: ClassId, i: nat, j: nat, top: Token)
    requires Ready(env, owner, top) && j <= |env.u[owner].interfaces|
  {
    forall k :: i <= k < j ==> Resolve(env, env.u[owner].interfaces[k], top) == Ok(None)
  }

  /** The j-th interface of owner is the first from position i on to yield an adapter, and it yields a. */
  predicate FirstFrom(env: Env, owner: ClassId, i: nat, j: nat, top: Token, a: Adapter)
    requires Ready(env, owner, top)
  {
    && j < |env.u[owner].interfaces|
    && NoneBefore(env, owner, i, j, top)
    && Resolve(env, env.u[owner].interfaces[j], top) == Ok(Some(a))
  }

  /** An interface that yields null passes the search on to the next one. */
  lemma WalkSkips(env: Env, owner: ClassId, i: nat, top: Token)
    requires Ready(env, owner, top) && i < |env.u[owner].interfaces|
    requires Resolve(env, env.u[owner].interfaces[i], top) == Ok(None)
    ensures Walk(env, owner, i, top) == Walk(env, owner, i + 1, top)
  {
  }

  /** An interface that yields an adapter ends the search with it. */
  lemma WalkHits(env: Env, owner: ClassId, i: nat, top: Token)
    requires Ready(env, owner, top) && i < |env.u[owner].interfaces|
    requires Resolve(env, env.u[owner].interfaces[i], top).Ok?
    requires Resolve(env, env.u[owner].interfaces[i], top).value.Some?
    ensures Walk(env, owner, i, top) == Resolve(env, env.u[owner].interfaces[i], top)
  {
  }

  /** The interfaces are tried in declaration order: the first that yields an adapter supplies it. */
  lemma {:induction false} WalkFindsFirst(env: Env, owner: ClassId, i: nat, j: nat, top: Token, a: Adapter)
    requires Ready(env, owner, top) && i <= j && FirstFrom(env, owner, i, j, top, a)
    ensures Walk(env, owner, i, top) == Ok(Some(a))
    decreases j - i
  {
    if i < j {
      WalkSkips(env, owner, i, top);
      WalkFindsFirst(env, owner, i + 1, j, top, a);
    } else {
      WalkHits(env, owner, i, top);
    }
  }

  /**
   * A class that has no adapter of its own takes the adapter of its first
   * generic interface, in declaration order, that yields one, before its
   * superclass is looked at.
   */
  lemma InterfacesBeforeSuperclass(env: Env, cur: ClassId, j: nat, top: Token, a: Adapter)
    requires Ready(env, cur, top)
    requires FixedPrimitive(cur).None? && cur !in env.registry && cur !in env.factory
    requires FirstFrom(env, cur, 0, j, top, a)
    ensures Resolve(env, cur, top) == Ok(Some(a))
  {
    WalkFindsFirst(env, cur, 0, j, top, a);
  }

  /**
   * A registry key whose adapter cannot be instantiated is passed over for
   * its superclass: neither the factories nor the interfaces are tried.
   */
  lemma FailedInstanceGoesUp(env: Env, cur: ClassId, top: Token)
    requires Ready(env, cur, top)
    requires FixedPrimitive(cur).None? && cur in env.registry && !Instantiable(env.registry[cur])
    ensures env.u[cur].superclass.None? ==> Resolve(env, cur, top) == Ok(None)
    ensures env.u[cur].superclass.Some? ==> Resolve(env, cur, top) == Resolve(env, env.u[cur].superclass.value, top)
  {
  }

  /** The registry is consulted before the factories: a class in both gets its registered adapter. */
  lemma RegistryBeforeFactories(env: Env, cur: ClassId, top: Token)
    requires Ready(env, cur, top)
    requires FixedPrimitive(cur).None? && cur in env.registry && Instantiable(env.registry[cur])
    ensures Resolve(env, cur, top) == Ok(Some(Instance(env.registry[cur])))
  {
  }

  /** The seven primitive classes get their fixed adapters whatever the registry says. */
  lemma PrimitivesFirst(env: Env, p: Primitive, top: Token)
    requires Ready(env, Prim(p), top)
    ensures p !in {PChar, PVoid} ==> Resolve(env, Prim(p), top).Ok?
    ensures p == PInt ==> Resolve(env, Prim(p), top) == Ok(Some(Instance(IntegerAdapter)))
    ensures p == PByte ==> Resolve(env, Prim(p), top) == Ok(Some(Instance(ByteAdapter)))
    ensures p == PLong ==> Resolve(env, Prim(p), top) == Ok(Some(Instance(LongAdapter)))
  {
  }
}
