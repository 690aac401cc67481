// The vocabulary of the reflective adapter layer, package
// mryurihi.tbnbt.adapter: Java classes, type tokens, the values the
// adapters turn into NBT and back, and the adapters themselves.
//
// Reflection is replaced by an explicit class graph.  Every class the
// registry may be asked about has a descriptor listing its interfaces in
// declaration order, its superclass, its component type when it is an
// array class, its declared instance fields in declaration order, whether
// Class.newInstance succeeds on it, and a rank that strictly decreases
// from a class to each class it refers to.
module AdapterTypes {
  import opened Bytes
  import opened Tags

  datatype Primitive = PByte | PShort | PInt | PLong | PFloat | PDouble | PBoolean | PChar | PVoid

  /** A java.lang.Class: the primitives, the classes the default registry names, and every other class by number. */
  datatype ClassId =
    | Prim(p: Primitive)
    | BoxedByte | BoxedShort | BoxedInteger | BoxedLong | BoxedFloat | BoxedDouble
    | BoxedByteArray      // Byte[]
    | ByteArrayClass      // byte[]
    | StringClass
    | ObjectClass
    | BoxedIntegerArray   // Integer[]
    | IntArrayClass       // int[]
    | BoxedLongArray      // Long[]
    | LongArrayClass      // long[]
    | CollectionClass     // java.util.Collection
    | ObjectArrayClass    // Object[]
    | MapClass            // java.util.Map
    | Declared(n: nat)

  /** A Guava TypeToken: the raw class and, when the type is parameterized, its type arguments. */
  datatype Token = Token(raw: ClassId, args: seq<ClassId>)

  /** TypeToken.of(c): the raw type itself, not parameterized. */
  function Plain(c: ClassId): (t: Token)
    ensures t.raw == c && t.args == []
  {
    Token(c, [])
  }

  /** A declared field: its name, the value of its @SerializedName if it has one, and its generic type. */
  datatype Field = Field(name: Str, serialized: Option<Str>, ty: Token)

  datatype ClassDesc = ClassDesc(
    interfaces: seq<ClassId>,
    superclass: Option<ClassId>,
    component: Option<ClassId>,
    fields: seq<Field>,
    instantiable: bool,
    rank: nat)

  type Universe = map<ClassId, ClassDesc>

  /** Every class named by a token is described. */
  predicate Known(u: Universe, t: Token)
  {
    t.raw in u && forall a :: a in t.args ==> a in u
  }

  /**
   * The class graph is closed and acyclic: what a class refers to is
   * described and ranks lower, its field types are described, and no two
   * of its fields share a name.  As in Java, the superclass of every array
   * class is Object.
   */
  predicate Hierarchy(u: Universe)
  {
    && (forall c, i :: c in u && i in u[c].interfaces ==> i in u && u[i].rank < u[c].rank)
    && (forall c :: c in u && u[c].superclass.Some? ==>
          u[c].superclass.value in u && u[u[c].superclass.value].rank < u[c].rank)
    && (forall c :: c in u && u[c].component.Some? ==>
          && u[c].component.value in u && u[u[c].component.value].rank < u[c].rank
          && u[c].superclass == Some(ObjectClass))
    && (forall c, f :: c in u && f in u[c].fields ==> Known(u, f.ty))
    && (forall c, j, k :: c in u && 0 <= j < k < |u[c].fields| ==> u[c].fields[j].name != u[c].fields[k].name)
  }

  /** The name a field has on the wire: its @SerializedName value, else its own name. */
  function WireName(f: Field): (n: Str)
    ensures f.serialized.None? ==> n == f.name
  {
    if f.serialized.Some? then f.serialized.value else f.name
  }

  // ---------------------------------------------------------------------
  // Adapters
  // ---------------------------------------------------------------------

  /** The adapter classes the registry can hold: the built-in ones and any class registered by a caller. */
  datatype AdapterClass =
    | ByteAdapter | ShortAdapter | IntegerAdapter | LongAdapter | FloatAdapter | DoubleAdapter | BooleanAdapter
    | ByteArrayAdapter | PrimitiveByteArrayAdapter | StringAdapter | ObjectAdapter
    | IntegerArrayAdapter | PrimitiveIntArrayAdapter | LongArrayAdapter | PrimitiveLongArrayAdapter
    | CustomAdapter(n: nat, id: int, instantiable: bool)

  /** Class.newInstance on the adapter class succeeds; the built-in adapters all have public no-argument constructors. */
  predicate Instantiable(k: AdapterClass)
  {
    !k.CustomAdapter? || k.instantiable
  }

  datatype FactoryKind = CollectionFactory | ArrayFactory | MapFactory

  /**
   * An adapter instance: a fresh instance of a registered class, or what a
   * factory's create returns.  A factory adapter holds the adapter it
   * resolved for its items, which is null when none was found.
   */
  datatype Adapter =
    | Instance(cls: AdapterClass)
    | MapAdapter(item: Option<Adapter>, itemClass: ClassId)
    | ArrayAdapter(content: Option<Adapter>, contentClass: ClassId)
    | CollectionAdapter(top: Token)

  /** Every class an adapter will ask the registry about is described. */
  predicate AdapterKnown(u: Universe, a: Adapter)
  {
    match a
    case Instance(_) => true
    case MapAdapter(item, c) => c in u && (item.Some? ==> AdapterKnown(u, item.value))
    case ArrayAdapter(content, c) => c in u && (content.Some? ==> AdapterKnown(u, content.value))
    case CollectionAdapter(t) => Known(u, t)
  }

  /**
   * getId: the tag type an adapter writes.  The ids of the adapters whose
   * source is not part of this model are those their names imply; a
   * registered adapter carries its own.
   */
  function GetId(a: Adapter): (id: int)
    ensures !(a.Instance? && a.cls.CustomAdapter?) ==> ByteId <= id <= LongArrayId
    ensures a.Instance? && a.cls.CustomAdapter? ==> id == a.cls.id
    ensures a.MapAdapter? || a == Instance(ObjectAdapter) ==> id == CompoundId
    ensures a.ArrayAdapter? || a.CollectionAdapter? ==> id == ListId
  {
    match a
    case Instance(k) =>
      (match k
       case ByteAdapter => ByteId
       case ShortAdapter => ShortId
       case IntegerAdapter => IntId
       case LongAdapter => LongId
       case FloatAdapter => FloatId
       case DoubleAdapter => DoubleId
       case BooleanAdapter => ByteId
       case ByteArrayAdapter => ByteArrayId
       case PrimitiveByteArrayAdapter => ByteArrayId
       case StringAdapter => StringId
       case ObjectAdapter => CompoundId
       case IntegerArrayAdapter => IntArrayId
       case PrimitiveIntArrayAdapter => IntArrayId
       case LongArrayAdapter => LongArrayId
       case PrimitiveLongArrayAdapter => LongArrayId
       case CustomAdapter(_, id, _) => id)
    case MapAdapter(_, _) => CompoundId
    case ArrayAdapter(_, _) => ListId
    case CollectionAdapter(_) => ListId
  }

  // ---------------------------------------------------------------------
  // Values
  // ---------------------------------------------------------------------

  /**
   * A Java object as the adapters see it.  An object holds a value for each
   * of its class's declared fields, by field name; a map is a
   * Map<String, E>.  Zero is the default value of a primitive field of a
   * kind this model does not decode.
   */
  datatype Value =
    | Null
    | ByteV(b: JByte)
    | IntV(i: JInt)
    | LongV(l: JLong)
    | StringV(s: Str)
    | ArrayV(elems: seq<Value>)
    | MapV(entries: map<Str, Value>)
    | ObjectV(fields: map<Str, Value>)
    | Zero(p: Primitive)

  /** The value a field holds in a freshly created instance: 0 for numbers, null for references. */
  function DefaultOf(c: ClassId): (v: Value)
    ensures !c.Prim? ==> v == Null
  {
    match c
    case Prim(PByte) => ByteV(0)
    case Prim(PInt) => IntV(0)
    case Prim(PLong) => LongV(0)
    case Prim(p) => Zero(p)
    case _ => Null
  }

  /** The fields of a new instance, each holding its default value. */
  function Defaults(fields: seq<Field>): (m: map<Str, Value>)
    ensures forall f :: f in fields ==> f.name in m
    ensures forall n :: n in m ==> exists f :: f in fields && f.name == n
  {
    if fields == [] then map[]
    else
      var last := fields[|fields| - 1];
      var m := Defaults(fields[..|fields| - 1]);
      assert forall f :: f in fields ==> f == last || f in fields[..|fields| - 1];
      m[last.name := DefaultOf(last.ty.raw)]
  }

  /**
   * What an encoder leaves behind: the bytes it wrote, in order, and the
   * exception it ended in, if any.  Bytes written before an exception stay
   * written.
   */
  datatype Emitted = Emitted(bytes: seq<Byte>, failure: Option<Error>)

  /** Run a then b: b's output follows a's, unless a already ended in an exception. */
  function Then(a: Emitted, b: Emitted): (r: Emitted)
    ensures a.failure.Some? ==> r == a
    ensures a.failure.None? ==> r.bytes == a.bytes + b.bytes && r.failure == b.failure
  {
    if a.failure.Some? then a else Emitted(a.bytes + b.bytes, b.failure)
  }
}
