// The AdapterRegistry object (src/main/java/mryurihi/tbnbt/adapter/AdapterRegistry.java):
// the two tables its constructor fills and registerAdapter updates, and the
// get*Adapter lookups of the registered adapter for a fixed class.
module Registry {
  import opened Bytes
  import opened Tags
  import opened AdapterTypes
  import opened Resolution

  /** The constructor's registry.put calls, in order: a later put for a class replaces an earlier one. */
  method PutEach(cs: seq<ClassId>, ks: seq<AdapterClass>) returns (reg: map<ClassId, AdapterClass>)
    requires |cs| == |ks|
    ensures reg == PutAll(cs, ks)
  {
    reg := map[];
    var i := 0;
    while i < |cs|
      invariant 0 <= i <= |cs|
      invariant reg == PutAll(cs[..i], ks[..i])
    {
      PutAllSnoc(cs, ks, i);
      reg := reg[cs[i] := ks[i]];
      i := i + 1;
    }
    assert cs[..i] == cs;
    assert ks[..i] == ks;
  }

  class AdapterRegistry {
    /** The registered adapter class for each class. */
    var registry: map<ClassId, AdapterClass>
    /** The factory for each class whose adapter is built from the type. */
    var factory: map<ClassId, FactoryKind>
    /** What reflection shows of the classes this registry is asked about. */
    const u: Universe

    /** The tables as the cascade and the adapters consult them. */
    function Tables(): (env: Env)
      reads this
      ensures env.registry == registry && env.factory == factory && env.u == u
    {
      Env(registry, factory, u)
    }

    /** new AdapterRegistry(): the fourteen default registrations, in order, then the three factories. */
    constructor (u: Universe)
      ensures registry == DefaultRegistry() && factory == DefaultFactories() && this.u == u
    {
      var reg := PutEach(RegisteredClasses, RegisteredAdapters);
      this.u := u;
      registry := reg;
      factory := map[CollectionClass := CollectionFactory][ObjectArrayClass := ArrayFactory][MapClass := MapFactory];
    }

    /** registerAdapter(type, adapter): a later registration replaces an earlier one for the same class. */
    method RegisterAdapter(c: ClassId, k: AdapterClass)
      modifies this`registry
      ensures registry == old(registry)[c := k]
    {
      registry := registry[c := k];
    }
  }

  /**
   * What registerAdapter changes: a class that is not one of the primitives
   * with a fixed adapter now gets an instance of the adapter registered for
   * it, whatever factory, interfaces or superclass it has.
   */
  lemma RegisterTakesEffect(env: Env, c: ClassId, k: AdapterClass, top: Token)
    requires Ready(env, c, top) && FixedPrimitive(c).None? && Instantiable(k)
    ensures Resolve(env.(registry := env.registry[c := k]), c, top) == Ok(Some(Instance(k)))
  {
    RegistryBeforeFactories(env.(registry := env.registry[c := k]), c, top);
  }

  /** The get*Adapter methods, one per tag type with a boxed Java class. */
  datatype Getter =
    | ByteGetter | ShortGetter | IntGetter | LongGetter | FloatGetter | DoubleGetter
    | ByteArrayGetter | StringGetter | IntArrayGetter | LongArrayGetter

  /** The tag type a getter is named after. */
  function Named(g: Getter): (id: int)
    ensures EndId < id <= LongArrayId && id != ListId && id != CompoundId
  {
    match g
    case ByteGetter => ByteId
    case ShortGetter => ShortId
    case IntGetter => IntId
    case LongGetter => LongId
    case FloatGetter => FloatId
    case DoubleGetter => DoubleId
    case ByteArrayGetter => ByteArrayId
    case StringGetter => StringId
    case IntArrayGetter => IntArrayId
    case LongArrayGetter => LongArrayId
  }

  /** The class each getter looks up as written: getIntArrayAdapter asks for Long[]. */
  function LookedUpAsWritten(g: Getter): ClassId
  {
    match g
    case IntArrayGetter => BoxedLongArray
    case _ => LookedUp(g)
  }

  /** The class each getter looks up as evidently intended: the class the matching from and write methods use. */
  function LookedUp(g: Getter): ClassId
  {
    match g
    case ByteGetter => BoxedByte
    case ShortGetter => BoxedShort
    case IntGetter => BoxedInteger
    case LongGetter => BoxedLong
    case FloatGetter => BoxedFloat
    case DoubleGetter => BoxedDouble
    case ByteArrayGetter => BoxedByteArray
    case StringGetter => StringClass
    case IntArrayGetter => BoxedIntegerArray
    case LongArrayGetter => BoxedLongArray
  }

  /** registry.get(c).newInstance(): null when nothing is registered (the NullPointerException is caught) or instantiation fails. */
  function Lookup(registry: map<ClassId, AdapterClass>, c: ClassId): (r: Option<Adapter>)
    ensures r.Some? <==> c in registry && Instantiable(registry[c])
    ensures r.Some? ==> r.value == Instance(registry[c])
  {
    if c in registry && Instantiable(registry[c]) then Some(Instance(registry[c])) else None
  }

  /** get*Adapter as written. */
  function GetAdapterAsWritten(registry: map<ClassId, AdapterClass>, g: Getter): (r: Option<Adapter>)
    ensures r.Some? <==> LookedUpAsWritten(g) in registry && Instantiable(registry[LookedUpAsWritten(g)])
    ensures r.Some? ==> r.value == Instance(registry[LookedUpAsWritten(g)])
  {
    Lookup(registry, LookedUpAsWritten(g))
  }

  /** get*Adapter as evidently intended. */
  function GetAdapter(registry: map<ClassId, AdapterClass>, g: Getter): (r: Option<Adapter>)
    ensures r.Some? <==> LookedUp(g) in registry && Instantiable(registry[LookedUp(g)])
    ensures r.Some? ==> r.value == Instance(registry[LookedUp(g)])
  {
    Lookup(registry, LookedUp(g))
  }

  /** Only getIntArrayAdapter differs from the intended lookup, in every registry. */
  lemma GettersAgreeElsewhere(registry: map<ClassId, AdapterClass>, g: Getter)
    ensures g != IntArrayGetter ==> GetAdapterAsWritten(registry, g) == GetAdapter(registry, g)
    ensures GetAdapterAsWritten(registry, IntArrayGetter) == GetAdapter(registry, LongArrayGetter)
  {
  }

  /** Where the class a getter looks up sits among the default registrations. */
  function Position(g: Getter): (i: nat)
    ensures i < |RegisteredClasses| && RegisteredClasses[i] == LookedUp(g)
    ensures GetId(Instance(RegisteredAdapters[i])) == Named(g)
  {
    match g
    case ByteGetter => 0
    case ShortGetter => 1
    case IntGetter => 2
    case LongGetter => 3
    case FloatGetter => 4
    case DoubleGetter => 5
    case ByteArrayGetter => 6
    case StringGetter => 8
    case IntArrayGetter => 10
    case LongArrayGetter => 12
  }

  /** In a new registry every intended getter hands out an adapter that writes the tag type it is named after. */
  lemma DefaultGettersNamed(g: Getter)
    ensures GetAdapter(DefaultRegistry(), g).Some?
    ensures GetId(GetAdapter(DefaultRegistry(), g).value) == Named(g)
  {
    DefaultEntry(Position(g));
  }

  /**
   * In a new registry getIntArrayAdapter as written hands out the Long[]
   * adapter, which writes LONG_ARRAY tags, not INT_ARRAY ones.
   */
  lemma IntArrayGetterMismatch()
    ensures GetAdapterAsWritten(DefaultRegistry(), IntArrayGetter) == Some(Instance(LongArrayAdapter))
    ensures GetId(GetAdapterAsWritten(DefaultRegistry(), IntArrayGetter).value) == LongArrayId
    ensures LongArrayId != Named(IntArrayGetter)
  {
    DefaultEntry(12);
  }
}
