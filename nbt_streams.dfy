// The stream package (src/main/java/mryurihi/tbnbt/stream/): NBTOutputStream
// and NBTInputStream wrap a raw stream and frame a document as a type byte,
// a name and a payload.  writeTag and readTag frame tag objects;
// writeFromObject and readToType frame a Java object with the id of the
// adapter that writes it and an empty name.  The GZIP layer the constructors
// may add is kept as a flag only: the wrapped stream is the raw bytes.
module NBTStreams {
  import opened Bytes
  import opened Tags
  import opened Streams
  import opened AdapterTypes
  import opened Resolution
  import opened AdapterSpec
  import AdapterIO
  import AdapterRoundTrip
  import AdapterCollections
  import Registry
  import TagLeaves
  import TagSpec
  import ParserSpec
  import NBTParser
  import RootRoundTrip
  import ParserFacts

  // ---------------------------------------------------------------------
  // The tag objects writeTag is given
  // ---------------------------------------------------------------------

  /**
   * A tag object of package mryurihi.tbnbt.tag that carries a name and a
   * getPayloadBytes: the String, Short, ByteArray and IntArray classes.
   */
  datatype TagObject =
    | StringObject(stringObject: TagLeaves.TagString)
    | ShortObject(shortObject: TagLeaves.TagShort)
    | ByteArrayObject(byteArrayObject: TagLeaves.TagByteArray)
    | IntArrayObject(intArrayObject: TagLeaves.TagIntArray)
  {
    /** The object itself, whichever its class. */
    function Object(): object
    {
      match this
      case StringObject(o) => o
      case ShortObject(o) => o
      case ByteArrayObject(o) => o
      case IntArrayObject(o) => o
    }

    /** Its name field. */
    function Name(): Option<Str>
      reads Object()
    {
      match this
      case StringObject(o) => o.name
      case ShortObject(o) => o.name
      case ByteArrayObject(o) => o.name
      case IntArrayObject(o) => o.name
    }

    /** Its value, as a tag of its kind. */
    function Value(): (t: Tag)
      reads Object()
      ensures HasPayloadBytes(t)
    {
      match this
      case StringObject(o) => StringTag(o.value)
      case ShortObject(o) => ShortTag(o.value)
      case ByteArrayObject(o) => ByteArrayTag(o.value)
      case IntArrayObject(o) => IntArrayTag(o.value)
    }

    /** A String object holds a value its constructor accepted. */
    predicate Valid()
      reads Object()
    {
      StringObject? ==> stringObject.Valid()
    }
  }

  /** The kinds whose classes in the tag package still have getPayloadBytes. */
  predicate HasPayloadBytes(t: Tag)
  {
    t.StringTag? || t.ShortTag? || t.ByteArrayTag? || t.IntArrayTag?
  }

  /** tag.setName(name), on whichever class the object is. */
  method SetName(t: TagObject, name: Option<Str>)
    modifies t.Object()
    ensures t.Name() == name && t.Value() == old(t.Value())
    ensures old(t.Valid()) ==> t.Valid()
  {
    match t
    case StringObject(o) => o.name := name;
    case ShortObject(o) => o.name := name;
    case ByteArrayObject(o) => o.name := name;
    case IntArrayObject(o) => o.name := name;
  }

  /** tag.getPayloadBytes(), on whichever class the object is: the name's payload when named, then the value's. */
  method PayloadBytes(t: TagObject) returns (r: Result<seq<Byte>>)
    requires t.Valid()
    ensures r == TagLeaves.WithName(t.Name(), TagSpec.LeafBytes(t.Value()))
  {
    match t
    case StringObject(o) => r := o.GetPayloadBytes();
    case ShortObject(o) => r := o.GetPayloadBytes();
    case ByteArrayObject(o) => r := o.GetPayloadBytes();
    case IntArrayObject(o) => r := o.GetPayloadBytes();
  }

  /**
   * What writeTag writes for a tag of kind t under name: the type byte, then
   * the named payload.  A name of more than Short.MAX_VALUE characters is
   * refused by the NBTTagString its payload is built with.
   */
  function TagDocument(t: Tag, name: Option<Str>): (r: Result<seq<Byte>>)
    requires HasPayloadBytes(t)
    ensures r.Ok? <==> TagLeaves.NameBytes(name).Ok?
    ensures r.Err? ==> r.error == IllegalArgument
    ensures r.Ok? ==> |r.value| >= 1 && r.value[0] == KindId(t)
    ensures r.Ok? && name.None? ==> r.value[1..] == TagSpec.LeafBytes(t)
  {
    var payload :- TagLeaves.WithName(name, TagSpec.LeafBytes(t));
    Ok([KindId(t)] + payload)
  }

  /** The end of writeTag: the list copied element by element into a new byte[], written in one write. */
  method WriteBuffer(os: Output, bytes: seq<Byte>)
    modifies os`written
    ensures os.written == old(os.written) + bytes
  {
    var out := new Byte[|bytes|];
    for i := 0 to |bytes|
      modifies out
      invariant out[..i] == bytes[..i]
    {
      out[i] := bytes[i];
      SliceSnoc(out[..], i);
    }
    assert out[..] == bytes;
    os.Write(out[..]);
  }

  /**
   * writeFromObject on the registry's tables: the adapter the cascade finds
   * for the type, its header, then its toNBT.
   */
  method WriteDocument(env: Env, token: Token, v: Value, out: Output) returns (failure: Option<Error>)
    requires Wf(env) && Known(env.u, token)
    modifies out`written
    ensures out.written == old(out.written) + ObjectDocument(env, v, token).bytes
    ensures failure == ObjectDocument(env, v, token).failure
  {
    var found := AdapterFor(env, token);
    failure := WriteFound(env, token, found, v, out);
  }

  /** writeFromObject once the cascade has answered found. */
  method WriteFound(env: Env, token: Token, found: Result<Option<Adapter>>, v: Value, out: Output) returns (failure: Option<Error>)
    requires found.Ok? && found.value.Some? ==> DecodeReady(env, found.value.value, token)
    modifies out`written
    ensures out.written == old(out.written) + DocumentFrom(env, found, v, token).bytes
    ensures failure == DocumentFrom(env, found, v, token).failure
  {
    match found
    case Err(e) =>
      failure := Some(e);
    case Ok(None) =>
      failure := Some(NullPointer);
    case Ok(Some(adapter)) =>
      ghost var before := out.written;
      WriteHeader(out, GetId(adapter));
      failure := AdapterIO.ToNBT(env, adapter, v, token, out);
      ConcatAssoc(before, Header(GetId(adapter)), Encode(env, adapter, v, token).bytes);
  }

  /** writeByte(id) then writeShort(0). */
  method WriteHeader(out: Output, id: int)
    modifies out`written
    ensures out.written == old(out.written) + Header(id)
  {
    ghost var before := out.written;
    out.WriteSigned(id, 1);
    out.WriteSigned(0, 2);
    ConcatAssoc(before, EncodeSigned(id, 1), ShortBytes(0));
  }

  // ---------------------------------------------------------------------
  // Documents of adapted objects
  // ---------------------------------------------------------------------

  /** writeByte(id) then writeShort(0): the adapter's id and an empty name. */
  function Header(id: int): (h: seq<Byte>)
    ensures |h| == 3 && h[1..] == [0, 0]
    ensures 0 <= id < 0x80 ==> h == [id, 0, 0]
  {
    ZeroShort();
    SmallId(id);
    EncodeSigned(id, 1) + ShortBytes(0)
  }

  lemma SmallId(id: int)
    ensures 0 <= id < 0x80 ==> EncodeSigned(id, 1) == [id]
  {
    if 0 <= id < 0x80 {
      SmallByteEncoding(id);
    }
  }

  lemma ZeroShort()
    ensures ShortBytes(0) == [0, 0]
  {
    ParserFacts.ShortOfSmall(0);
  }

  /**
   * What writeFromObject writes: nothing when the cascade throws or finds no
   * adapter (adapter.getId() on null throws NullPointerException); otherwise
   * the header with the adapter's id, then what its toNBT writes.
   */
  function ObjectDocument(env: Env, v: Value, token: Token): (r: Emitted)
    requires Wf(env) && Known(env.u, token)
    ensures AdapterFor(env, token).Err? ==> r == Emitted([], Some(AdapterFor(env, token).error))
    ensures AdapterFor(env, token) == Ok(None) ==> r == Emitted([], Some(NullPointer))
    ensures AdapterFor(env, token).Ok? && AdapterFor(env, token).value.Some? ==>
      var a := AdapterFor(env, token).value.value;
      |r.bytes| >= 3 && r.bytes[..3] == Header(GetId(a)) && r.failure == Encode(env, a, v, token).failure
  {
    DocumentFrom(env, AdapterFor(env, token), v, token)
  }

  /** What writeFromObject writes once the cascade has answered found. */
  function DocumentFrom(env: Env, found: Result<Option<Adapter>>, v: Value, token: Token): (r: Emitted)
    requires found.Ok? && found.value.Some? ==> DecodeReady(env, found.value.value, token)
    ensures found.Err? ==> r == Emitted([], Some(found.error))
    ensures found == Ok(None) ==> r == Emitted([], Some(NullPointer))
    ensures found.Ok? && found.value.Some? ==>
      |r.bytes| >= 3 && r.bytes[..3] == Header(GetId(found.value.value)) &&
      r.failure == Encode(env, found.value.value, v, token).failure
  {
    match found
    case Err(e) => Emitted([], Some(e))
    case Ok(None) => Emitted([], Some(NullPointer))
    case Ok(Some(a)) => Then(Emitted(Header(GetId(a)), None), Encode(env, a, v, token))
  }

  /**
   * What readTag reads: a type byte, then the named tag of that kind; an
   * END or unknown type byte gives null.
   */
  function TagRead(s: seq<Byte>): (r: Result<Read<Option<Named>>>)
    ensures |s| == 0 ==> r == Err(EndOfStream)
    ensures r.Ok? ==> |r.value.rest| < |s|
    ensures r.Ok? && r.value.value.Some? ==> r.value.value.value.name.Some? && KindId(r.value.value.value.tag) == Decoded(s[0])
  {
    WidthBounds();
    var id :- ReadSigned(s, 1);
    ParserSpec.TagById(id.rest, id.value, true)
  }

  /** The signed value of a single byte. */
  function Decoded(b: Byte): (v: int)
    ensures -0x80 <= v < 0x80
    ensures b < 0x80 ==> v == b
  {
    if b < 0x80 then b else b - 0x100
  }

  /**
   * What readToType reads: an id byte and its tag type, then a name that is
   * discarded (fromString swallows its failures), then the object the
   * adapter the cascade finds for the type decodes with that id.  A null
   * adapter throws NullPointerException.
   */
  function ObjectRead(env: Env, s: seq<Byte>, token: Token): (r: Outcome<Value>)
    requires Wf(env) && Known(env.u, token)
    ensures |s| == 0 ==> r == Read(Err(EndOfStream), [])
    ensures |r.rest| <= |s|
    ensures r.value.Ok? ==> |r.rest| < |s| && AdapterFor(env, token).Ok? && AdapterFor(env, token).value.Some?
  {
    var b := ReadIn(s, 1);
    if b.value.Err? then Read(Err(b.value.error), b.rest)
    else if TagSpec.TypeById(b.value.value).Err? then Read(Err(TagSpec.TypeById(b.value.value).error), b.rest)
    else AfterId(env, TagSpec.TypeById(b.value.value).value, b.rest, token)
  }

  /** readToType after the id byte: the name, dropped, then the adapter's fromNBT with that id. */
  function AfterId(env: Env, id: int, s: seq<Byte>, token: Token): (r: Outcome<Value>)
    requires Wf(env) && Known(env.u, token)
    ensures |r.rest| <= |s|
    ensures r.value.Ok? ==> |r.rest| < |s| && AdapterFor(env, token).Ok? && AdapterFor(env, token).value.Some?
  {
    var name := FromString(env, s);
    match AdapterFor(env, token)
    case Err(e) => Read(Err(e), name.rest)
    case Ok(None) => Read(Err(NullPointer), name.rest)
    case Ok(Some(a)) => Decode(env, a, id, name.rest, token)
  }

  // ---------------------------------------------------------------------
  // The stream classes
  // ---------------------------------------------------------------------

  /** NBTOutputStream of the stream package: the wrapped stream and whether it was put behind GZIP. */
  class NBTOutputStream {
    const os: Output
    const compressed: bool

    constructor (out: Output, compressed: bool)
      ensures os == out && this.compressed == compressed
    {
      os := out;
      this.compressed := compressed;
    }

    /** The one-argument constructor: compressed. */
    constructor Default(out: Output)
      ensures os == out && compressed
    {
      os := out;
      compressed := true;
    }

    /**
     * writeTag: names the tag, puts its type byte in front of its payload
     * bytes, copies the list into a buffer and writes the buffer at once.
     */
    method WriteTag(t: TagObject, name: Option<Str>) returns (r: Result<()>)
      requires t.Valid()
      modifies t.Object(), os`written
      ensures t.Name() == name && t.Value() == old(t.Value())
      ensures r.Ok? <==> TagDocument(t.Value(), name).Ok?
      ensures r.Err? ==> r.error == IllegalArgument && os.written == old(os.written)
      ensures r.Ok? ==> os.written == old(os.written) + TagDocument(t.Value(), name).value
    {
      SetName(t, name);
      var bytes :- PayloadBytes(t);
      bytes := [KindId(t.Value())] + bytes;
      WriteBuffer(os, bytes);
      return Ok(());
    }

    /**
     * writeFromObject: the adapter the registry's cascade finds for the
     * type, its id byte, an empty name, then what the adapter's toNBT writes.
     */
    method WriteFromObject(token: Token, v: Value, registry: Registry.AdapterRegistry) returns (failure: Option<Error>)
      requires Wf(registry.Tables()) && Known(registry.u, token)
      modifies os`written
      ensures os.written == old(os.written) + ObjectDocument(registry.Tables(), v, token).bytes
      ensures failure == ObjectDocument(registry.Tables(), v, token).failure
    {
      failure := WriteDocument(registry.Tables(), token, v, os);
    }

    /** The overload without a registry: a new default one. */
    method WriteFromObjectDefault(token: Token, v: Value, u: Universe) returns (failure: Option<Error>)
      requires Wf(Env(DefaultRegistry(), DefaultFactories(), u)) && Known(u, token)
      modifies os`written
      ensures os.written == old(os.written) + ObjectDocument(Env(DefaultRegistry(), DefaultFactories(), u), v, token).bytes
      ensures failure == ObjectDocument(Env(DefaultRegistry(), DefaultFactories(), u), v, token).failure
    {
      var registry := new Registry.AdapterRegistry(u);
      failure := WriteFromObject(token, v, registry);
    }

    /** close: closes the wrapped stream. */
    method Close()
      modifies os`closed
      ensures os.closed
    {
      os.Close();
    }
  }

  /** NBTInputStream of the stream package: the wrapped stream and whether it was put behind GZIP. */
  class NBTInputStream {
    const dis: Input
    const compressed: bool

    constructor (input: Input, compressed: bool)
      ensures dis == input && this.compressed == compressed
    {
      dis := input;
      this.compressed := compressed;
    }

    /** The one-argument constructor: compressed. */
    constructor Default(input: Input)
      ensures dis == input && compressed
    {
      dis := input;
      compressed := true;
    }

    /** readTag: a type byte, then parseTagById of that type, named. */
    method ReadTag() returns (r: Result<Option<Named>>)
      modifies dis`data
      ensures Matches(r, TagRead(old(dis.data)), dis.data)
    {
      WidthBounds();
      var id :- dis.ReadByte();
      r := NBTParser.ParseTagById(dis, id, true);
    }

    /**
     * readToType: the id byte, the name (read and dropped), then the
     * cascade's adapter for the type decodes with that id.
     */
    method ReadToType(token: Token, registry: Registry.AdapterRegistry) returns (r: Result<Value>)
      requires Wf(registry.Tables()) && Known(registry.u, token)
      modifies dis`data
      ensures Read(r, dis.data) == ObjectRead(registry.Tables(), old(dis.data), token)
    {
      var env := registry.Tables();
      var b := AdapterIO.ReadNext(dis, 1);
      if b.Err? {
        return Err(b.error);
      }
      var id := TagSpec.TypeById(b.value);
      if id.Err? {
        return Err(id.error);
      }
      var _ := AdapterIO.ReadString(env, dis);
      var a := AdapterFor(env, token);
      if a.Err? {
        return Err(a.error);
      }
      if a.value.None? {
        return Err(NullPointer);
      }
      r := AdapterIO.FromNBT(env, a.value.value, id.value, dis, token);
    }

    /** The overload without a registry: a new default one. */
    method ReadToTypeDefault(token: Token, u: Universe) returns (r: Result<Value>)
      requires Wf(Env(DefaultRegistry(), DefaultFactories(), u)) && Known(u, token)
      modifies dis`data
      ensures Read(r, dis.data) == ObjectRead(Env(DefaultRegistry(), DefaultFactories(), u), old(dis.data), token)
    {
      var registry := new Registry.AdapterRegistry(u);
      r := ReadToType(token, registry);
    }

    /** close: closes the wrapped stream. */
    method Close()
      modifies dis`closed
      ensures dis.closed
    {
      dis.Close();
    }
  }

  // ---------------------------------------------------------------------
  // What is written reads back
  // ---------------------------------------------------------------------

  /**
   * A tag of one of the four kinds, written under a name of one byte per
   * character, reads back through readTag as that tag under that name,
   * leaving what followed.  The value must also fit the reader: a string
   * of one byte per character and arrays of at most Integer.MAX_VALUE
   * elements.
   */
  lemma TagDocumentReadsBack(t: Tag, name: Str, rest: seq<Byte>)
    requires HasPayloadBytes(t)
    requires JavaLength(name) == |name| <= ShortMax
    requires t.StringTag? ==> JavaLength(t.str) == |t.str| <= ShortMax
    requires t.ByteArrayTag? ==> |t.bytes| < 0x8000_0000
    requires t.IntArrayTag? ==> |t.ints| < 0x8000_0000
    ensures TagDocument(t, Some(name)).Ok?
    ensures TagRead(TagDocument(t, Some(name)).value + rest) == Ok(Read(Some(Named(Some(name), t)), rest))
  {
    NamedReadsBack(t, name, rest);
    var w := TagLeaves.WithName(Some(name), TagSpec.LeafBytes(t)).value;
    ConcatAssoc([KindId(t)], w, rest);
    ParserFacts.SmallByteReads(KindId(t), w + rest);
  }

  /** The named payload alone reads back through parseTagById(in, kind, true). */
  lemma NamedReadsBack(t: Tag, name: Str, rest: seq<Byte>)
    requires HasPayloadBytes(t)
    requires JavaLength(name) == |name| <= ShortMax
    requires t.StringTag? ==> JavaLength(t.str) == |t.str| <= ShortMax
    requires t.ByteArrayTag? ==> |t.bytes| < 0x8000_0000
    requires t.IntArrayTag? ==> |t.ints| < 0x8000_0000
    ensures TagLeaves.WithName(Some(name), TagSpec.LeafBytes(t)).Ok?
    ensures ParserSpec.TagById(TagLeaves.WithName(Some(name), TagSpec.LeafBytes(t)).value + rest, KindId(t), true)
      == Ok(Read(Some(Named(Some(name), t)), rest))
  {
    var body := TagSpec.LeafBytes(t);
    TagLeaves.NameReadsBack(Some(name), body + rest);
    ConcatAssoc(TagLeaves.NameBytes(Some(name)).value, body, rest);
    PayloadReadsBack(t, rest);
  }

  /** The value bytes of one of the four kinds read back as the tag through NBTParser's payload reader. */
  lemma PayloadReadsBack(t: Tag, rest: seq<Byte>)
    requires HasPayloadBytes(t)
    requires t.StringTag? ==> JavaLength(t.str) == |t.str| <= ShortMax
    requires t.ByteArrayTag? ==> |t.bytes| < 0x8000_0000
    requires t.IntArrayTag? ==> |t.ints| < 0x8000_0000
    ensures ParserSpec.Payload(TagSpec.LeafBytes(t) + rest, KindId(t)) == Ok(Read(t, rest))
  {
    match t
    case StringTag(v) => TagLeaves.StringReadsBack(v, rest);
    case ShortTag(v) => TagLeaves.ShortReadsBack(v, rest);
    case ByteArrayTag(v) => TagLeaves.ByteArrayReadsBack(v, rest);
    case IntArrayTag(v) => TagLeaves.IntArrayReadsBack(v, rest);
  }

  /**
   * The header writeFromObject puts in front of an adapter's output is
   * exactly what readToType consumes before it hands the stream to the same
   * adapter: an object the adapter writes and reads back is read back
   * through the two stream classes.  The registry must keep its default
   * String entry, which reads the empty name.
   */
  lemma HeaderRoundTrip(env: Env, token: Token, a: Adapter, v: Value, rest: seq<Byte>)
    requires Wf(env) && Known(env.u, token) && AdapterRoundTrip.DefaultLeaves(env)
    requires AdapterFor(env, token) == Ok(Some(a)) && EndId <= GetId(a) <= LongArrayId
    requires Encode(env, a, v, token).failure.None?
    requires Decode(env, a, GetId(a), Encode(env, a, v, token).bytes + rest, token) == Read(Ok(v), rest)
    ensures ObjectDocument(env, v, token) == Emitted(Header(GetId(a)) + Encode(env, a, v, token).bytes, None)
    ensures ObjectRead(env, ObjectDocument(env, v, token).bytes + rest, token) == Read(Ok(v), rest)
  {
    var e := Encode(env, a, v, token).bytes;
    DocumentOf(env, token, a, v);
    HeaderRead(env, GetId(a), e + rest);
    ConcatAssoc(Header(GetId(a)), e, rest);
  }

  /**
   * What writeFromObject writes once the cascade has found adapter a.
   */
  lemma DocumentOf(env: Env, token: Token, a: Adapter, v: Value)
    requires Wf(env) && Known(env.u, token) && AdapterFor(env, token) == Ok(Some(a))
    ensures ObjectDocument(env, v, token) == Emitted(Header(GetId(a)) + Encode(env, a, v, token).bytes, Encode(env, a, v, token).failure)
  {
  }

  /** readToType on a header: the id byte is the kind, and the two zero bytes read as the empty name. */
  lemma HeaderRead(env: Env, id: int, body: seq<Byte>)
    requires AdapterRoundTrip.DefaultLeaves(env) && EndId <= id <= LongArrayId
    ensures ReadIn(Header(id) + body, 1) == Read(Ok(id), [0, 0] + body)
    ensures TagSpec.TypeById(id) == Ok(id)
    ensures FromString(env, [0, 0] + body) == Read(Some([]), body)
  {
    ZeroShort();
    assert Header(id) + body == [id] + ([0, 0] + body);
    ParserFacts.SmallByteReads(id, [0, 0] + body);
    AdapterRoundTrip.NameRoundTrip(env, [], body);
    assert ShortBytes(0) + [] + body == [0, 0] + body;
  }

  /**
   * An object whose fields all go through leaf adapters, written by
   * writeFromObject with the object adapter, is read back by readToType.
   */
  lemma ObjectDocumentRoundTrip(env: Env, token: Token, ks: seq<AdapterClass>, v: Value, rest: seq<Byte>)
    requires AdapterRoundTrip.LeafObject(env, token, ks, v) && AdapterRoundTrip.DefaultLeaves(env)
    requires AdapterFor(env, token) == Ok(Some(Instance(ObjectAdapter)))
    ensures ObjectDocument(env, v, token).failure.None?
    ensures ObjectRead(env, ObjectDocument(env, v, token).bytes + rest, token) == Read(Ok(v), rest)
  {
    AdapterRoundTrip.ObjectRoundTrip(env, token, ks, v, rest);
    ObjectAdapterIs(env, token, v, ObjectOut(env, v, token).bytes + rest);
    HeaderRoundTrip(env, token, Instance(ObjectAdapter), v, rest);
  }

  /**
   * The object adapter's toNBT and fromNBT are ObjectOut and ObjectIn.  The
   * precondition is stated as one fact, which keeps the proof small.
   */
  lemma ObjectAdapterIs(env: Env, token: Token, v: Value, s: seq<Byte>)
    requires (Wf(env) && Known(env.u, token)) == true
    ensures GetId(Instance(ObjectAdapter)) == CompoundId
    ensures Encode(env, Instance(ObjectAdapter), v, token) == ObjectOut(env, v, token)
    ensures Decode(env, Instance(ObjectAdapter), CompoundId, s, token) == ObjectIn(env, CompoundId, s, token)
  {
  }

  /**
   * A non-empty map whose values go through a leaf adapter, written by
   * writeFromObject, is read back by readToType with the corrected map
   * decoder.
   */
  lemma MapDocumentRoundTrip(env: Env, token: Token, k: AdapterClass, c: ClassId, v: Value, rest: seq<Byte>)
    requires v.MapV? && AdapterCollections.LeafMap(env, k, c, v.entries) && |v.entries| > 0
    requires Known(env.u, token) && env.u[token.raw].instantiable
    requires AdapterFor(env, token) == Ok(Some(MapAdapter(Some(Instance(k)), c)))
    ensures ObjectDocument(env, v, token).failure.None?
    ensures ObjectRead(env, ObjectDocument(env, v, token).bytes + rest, token) == Read(Ok(v), rest)
  {
    AdapterCollections.MapRoundTrip(env, k, c, token, v, rest);
    HeaderRoundTrip(env, token, MapAdapter(Some(Instance(k)), c), v, rest);
  }

  /**
   * An array of values of a leaf adapter's kind, written by
   * writeFromObject, is read back by readToType.
   */
  lemma ArrayDocumentRoundTrip(env: Env, token: Token, k: AdapterClass, c: ClassId, es: seq<Value>, rest: seq<Byte>)
    requires AdapterCollections.LeafArray(env, k, c, es) && Known(env.u, token)
    requires AdapterFor(env, token) == Ok(Some(ArrayAdapter(Some(Instance(k)), c)))
    ensures ObjectDocument(env, ArrayV(es), token).failure.None?
    ensures ObjectRead(env, ObjectDocument(env, ArrayV(es), token).bytes + rest, token) == Read(Ok(ArrayV(es)), rest)
  {
    AdapterCollections.ArrayRoundTrip(env, k, c, es, rest);
    HeaderRoundTrip(env, token, ArrayAdapter(Some(Instance(k)), c), ArrayV(es), rest);
  }

  /**
   * A value of a leaf adapter's kind, written by writeFromObject, is read
   * back by readToType.
   */
  lemma LeafDocumentRoundTrip(env: Env, token: Token, k: AdapterClass, v: Value, rest: seq<Byte>)
    requires Wf(env) && Known(env.u, token) && AdapterRoundTrip.DefaultLeaves(env)
    requires IsLeaf(k) && AdapterRoundTrip.Fits(k, v)
    requires AdapterFor(env, token) == Ok(Some(Instance(k)))
    ensures ObjectDocument(env, v, token).failure.None?
    ensures ObjectRead(env, ObjectDocument(env, v, token).bytes + rest, token) == Read(Ok(v), rest)
  {
    AdapterRoundTrip.LeafRoundTrip(k, v, rest);
    HeaderRoundTrip(env, token, Instance(k), v, rest);
  }
}
