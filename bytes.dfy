// Byte-level vocabulary shared by every revision of the NBT codec: unsigned
// bytes, big-endian fixed-width integers as java.io.DataInput/DataOutput and
// java.nio.ByteBuffer lay them out, Java's signed integer widths, and the
// Result type that stands in for the exceptions the Java code throws.
module Bytes {

  /** An octet as it travels on the wire. */
  type Byte = b: int | 0 <= b < 256

  /** Java's signed primitive widths. */
  type JByte = v: int | -0x80 <= v < 0x80
  type JShort = v: int | -0x8000 <= v < 0x8000
  type JInt = v: int | -0x8000_0000 <= v < 0x8000_0000
  type JLong = v: int | -0x8000_0000_0000_0000 <= v < 0x8000_0000_0000_0000

  /**
   * A Java String, represented by the bytes the platform charset turns it
   * into (String.getBytes() / new String(byte[])).
   */
  type Str = seq<Byte>

  datatype Option<T> = None | Some(value: T)

  /** The exceptions the modelled code can end in. */
  datatype Error =
    | EndOfStream        // java.io.EOFException from a DataInputStream
    | NegativeArraySize  // new byte[n] / new int[n] with n < 0
    | NullPointer        // a method called on a null reference
    | IndexOutOfBounds   // a list or array index outside the bounds
    | IllegalArgument    // IllegalArgumentException thrown by a guard
    | ClassCast          // ClassCastException from Class.cast
    | ParseFailure       // NBTParseException thrown by an adapter
    | UnknownTagType     // TagType.getTypeById on an id it does not know
    | Unmodelled         // whatever an adapter whose code is not part of the model throws

  /**
   * An adapter's catch (Exception e) { throw new NBTParseException(e); }:
   * every exception becomes an NBTParseException, except that an outcome
   * the model leaves open (code outside the model) stays open.
   */
  function Wrapped(e: Error): (r: Error)
    ensures r == ParseFailure || r == Unmodelled
    ensures r == Unmodelled <==> e == Unmodelled
  {
    if e == Unmodelled then Unmodelled else ParseFailure
  }

  datatype Result<T> = Ok(value: T) | Err(error: Error) {
    predicate IsFailure() { Err? }
    function PropagateFailure<U>(): Result<U>
      requires Err?
    {
      Err(error)
    }
    function Extract(): T
      requires Ok?
    {
      value
    }
  }

  /** A decoded value together with the bytes left unread after it. */
  datatype Read<T> = Read(value: T, rest: seq<Byte>)

  // ---------------------------------------------------------------------
  // Unsigned big-endian integers
  // ---------------------------------------------------------------------

  function Pow256(n: nat): (r: nat)
    ensures r >= 1
  {
    if n == 0 then 1 else 256 * Pow256(n - 1)
  }

  /** The unsigned value of s read most significant byte first. */
  function Unsigned(s: seq<Byte>): (r: nat)
    ensures r < Pow256(|s|)
  {
    if s == [] then 0
    else
      var p := Unsigned(s[..|s| - 1]);
      assert p * 256 + s[|s| - 1] <= (Pow256(|s| - 1) - 1) * 256 + 255;
      p * 256 + s[|s| - 1]
  }

  /** The n bytes, most significant first, of a value below 256^n. */
  function BigEndian(v: nat, n: nat): (r: seq<Byte>)
    requires v < Pow256(n)
    ensures |r| == n
  {
    if n == 0 then []
    else BigEndian(v / 256, n - 1) + [v % 256]
  }

  lemma {:induction false} UnsignedBigEndian(v: nat, n: nat)
    requires v < Pow256(n)
    ensures Unsigned(BigEndian(v, n)) == v
  {
    if n > 0 {
      var s := BigEndian(v, n);
      assert s[..n - 1] == BigEndian(v / 256, n - 1);
      UnsignedBigEndian(v / 256, n - 1);
    }
  }

  lemma {:induction false} BigEndianUnsigned(s: seq<Byte>)
    ensures BigEndian(Unsigned(s), |s|) == s
  {
    if s != [] {
      var n := |s|;
      var p := Unsigned(s[..n - 1]);
      DivMod256(p, s[n - 1]);
      BigEndianUnsigned(s[..n - 1]);
      assert s == s[..n - 1] + [s[n - 1]];
    }
  }

  lemma DivMod256(p: nat, b: Byte)
    ensures (p * 256 + b) / 256 == p && (p * 256 + b) % 256 == b
  {
  }

  // ---------------------------------------------------------------------
  // Two's complement at a fixed width of n bytes
  // ---------------------------------------------------------------------

  /** The smallest value that no longer fits as a positive n-byte signed value. */
  function Half(n: nat): (r: nat)
    requires n >= 1
    ensures 2 * r == Pow256(n)
  {
    128 * Pow256(n - 1)
  }

  predicate InSigned(v: int, n: nat)
  {
    n >= 1 && 0 <= v + Half(n) && v < Half(n)
  }

  /** The signed value whose n-byte two's complement pattern is u. */
  function ToSigned(u: nat, n: nat): (r: int)
    requires n >= 1 && u < Pow256(n)
    ensures InSigned(r, n)
    ensures r >= 0 <==> u < Half(n)
  {
    if u < Half(n) then u else u - Pow256(n)
  }

  lemma ModOfSmall(v: int, m: int)
    requires 0 <= v < m
    ensures v % m == v
  {
  }

  lemma ModOfNegative(v: int, m: int)
    requires -m <= v < 0
    ensures v % m == v + m
  {
  }

  /**
   * Java's narrowing conversion to n bytes: (byte) v, (short) v, (int) v.
   * A value that already fits is kept unchanged.
   */
  function Narrow(v: int, n: nat): (r: int)
    requires n >= 1
    ensures InSigned(r, n)
    ensures InSigned(v, n) ==> r == v
  {
    NarrowKeepsFitting(v, n);
    ToSigned(v % Pow256(n), n)
  }

  lemma NarrowKeepsFitting(v: int, n: nat)
    requires n >= 1
    ensures InSigned(v, n) ==> ToSigned(v % Pow256(n), n) == v
  {
    if InSigned(v, n) {
      if v >= 0 { ModOfSmall(v, Pow256(n)); } else { ModOfNegative(v, Pow256(n)); }
    }
  }

  /** The n bytes DataOutputStream writes for v: its low-order n bytes, big-endian. */
  function EncodeSigned(v: int, n: nat): (r: seq<Byte>)
    requires n >= 1
    ensures |r| == n
  {
    BigEndian(v % Pow256(n), n)
  }

  /** The signed value DataInputStream reads from these bytes. */
  function DecodeSigned(s: seq<Byte>): (r: int)
    requires |s| >= 1
    ensures InSigned(r, |s|)
  {
    ToSigned(Unsigned(s), |s|)
  }

  lemma DecodeEncodeSigned(v: int, n: nat)
    requires n >= 1
    ensures DecodeSigned(EncodeSigned(v, n)) == Narrow(v, n)
  {
    UnsignedBigEndian(v % Pow256(n), n);
  }

  /** Writing an in-range value at its width and reading it back gives the value. */
  lemma SignedRoundTrip(v: int, n: nat)
    requires InSigned(v, n)
    ensures DecodeSigned(EncodeSigned(v, n)) == v
  {
    DecodeEncodeSigned(v, n);
  }

  /** Reading n bytes and writing the value back reproduces those bytes. */
  lemma EncodeDecodeSigned(s: seq<Byte>)
    requires |s| >= 1
    ensures EncodeSigned(DecodeSigned(s), |s|) == s
  {
    var n := |s|;
    var u := Unsigned(s);
    var m := Pow256(n);
    if u < Half(n) {
      ModOfSmall(u, m);
    } else {
      ModOfNegative(u - m, m);
    }
    BigEndianUnsigned(s);
  }

  lemma WidthBounds()
    ensures Pow256(1) == 0x100 && Half(1) == 0x80
    ensures Pow256(2) == 0x1_0000 && Half(2) == 0x8000
    ensures Pow256(4) == 0x1_0000_0000 && Half(4) == 0x8000_0000
    ensures Pow256(8) == 0x1_0000_0000_0000_0000 && Half(8) == 0x8000_0000_0000_0000
  {
  }

  /** Concatenation regroups freely. */
  lemma ConcatAssoc<T>(a: seq<T>, b: seq<T>, c: seq<T>)
    ensures (a + b) + c == a + (b + c)
  {
  }

  lemma ConcatAssoc4<T>(a: seq<T>, b: seq<T>, c: seq<T>, d: seq<T>)
    ensures ((a + b) + c) + d == a + ((b + c) + d)
  {
  }

  lemma ConcatAssoc5<T>(a: seq<T>, b: seq<T>, c: seq<T>, d: seq<T>, e: seq<T>)
    ensures (((a + b) + c) + d) + e == a + (((b + c) + d) + e)
  {
  }

  lemma SliceSnoc<T>(s: seq<T>, i: nat)
    requires i < |s|
    ensures s[..i + 1] == s[..i] + [s[i]]
  {
  }

  lemma SliceCons<T>(s: seq<T>, i: nat)
    requires i < |s|
    ensures s[i..] == [s[i]] + s[i + 1..]
  {
  }

  /** A non-negative value below 0x80 is written as the single byte of that value. */
  lemma SmallByteEncoding(v: int)
    requires 0 <= v < 0x80
    ensures EncodeSigned(v, 1) == [v]
  {
    ModOfSmall(v, Pow256(1));
  }

  // ---------------------------------------------------------------------
  // Java-width shorthands
  // ---------------------------------------------------------------------

  function ToJByte(v: int): (r: JByte)
  {
    WidthBounds();
    Narrow(v, 1)
  }

  function ToJShort(v: int): (r: JShort)
  {
    WidthBounds();
    Narrow(v, 2)
  }

  function ToJInt(v: int): (r: JInt)
  {
    WidthBounds();
    Narrow(v, 4)
  }

  /** The wire byte of a Java byte value. */
  function ByteOf(v: JByte): (r: Byte)
    ensures DecodeSigned([r]) == v
  {
    WidthBounds();
    SignedRoundTrip(v, 1);
    EncodeSigned(v, 1)[0]
  }

  /** The Java byte a wire byte stands for (readByte). */
  function SignedByte(b: Byte): (r: JByte)
    ensures r == DecodeSigned([b])
  {
    WidthBounds();
    assert Unsigned([b]) == b by {
      assert [b][..0] == [];
    }
    if b < 0x80 then b else b - 0x100
  }

  /** The wire byte of a Java byte (writeByte). */
  function UnsignedByte(v: JByte): (r: Byte)
    ensures SignedByte(r) == v
    ensures [r] == EncodeSigned(v, 1)
  {
    WidthBounds();
    EncodeDecodeSigned([if v < 0 then v + 0x100 else v]);
    if v < 0 then v + 0x100 else v
  }

  /** A byte[] read off the wire, element by element. */
  function SignedBytes(s: seq<Byte>): (r: seq<JByte>)
    ensures |r| == |s|
    ensures forall i :: 0 <= i < |s| ==> r[i] == SignedByte(s[i])
  {
    seq(|s|, i requires 0 <= i < |s| => SignedByte(s[i]))
  }

  /** The wire bytes of a byte[]. */
  function UnsignedBytes(v: seq<JByte>): (r: seq<Byte>)
    ensures |r| == |v|
    ensures SignedBytes(r) == v
  {
    seq(|v|, i requires 0 <= i < |v| => UnsignedByte(v[i]))
  }

  function ShortBytes(v: int): (r: seq<Byte>)
    ensures |r| == 2
  {
    EncodeSigned(v, 2)
  }

  function IntBytes(v: int): (r: seq<Byte>)
    ensures |r| == 4
  {
    EncodeSigned(v, 4)
  }

  function LongBytes(v: int): (r: seq<Byte>)
    ensures |r| == 8
  {
    EncodeSigned(v, 8)
  }

  /** The concatenated 4-byte big-endian forms of a sequence of ints. */
  function IntsBytes(v: seq<int>): (r: seq<Byte>)
    ensures |r| == 4 * |v|
  {
    if v == [] then [] else IntBytes(v[0]) + IntsBytes(v[1..])
  }

  // ---------------------------------------------------------------------
  // DataInputStream reads over a byte sequence
  // ---------------------------------------------------------------------

  /** readFully of n bytes: the next n bytes, or EOFException when fewer remain. */
  function ReadN(s: seq<Byte>, n: nat): (r: Result<Read<seq<Byte>>>)
    ensures r.Ok? <==> n <= |s|
    ensures r.Ok? ==> r.value.value + r.value.rest == s && |r.value.value| == n
  {
    if |s| < n then Err(EndOfStream) else Ok(Read(s[..n], s[n..]))
  }

  /** readByte / readShort / readInt / readLong: n bytes as a signed value. */
  function ReadSigned(s: seq<Byte>, n: nat): (r: Result<Read<int>>)
    requires n >= 1
    ensures r.Ok? <==> n <= |s|
    ensures r.Ok? ==> InSigned(r.value.value, n) && r.value.rest == s[n..]
  {
    var bytes :- ReadN(s, n);
    Ok(Read(DecodeSigned(bytes.value), bytes.rest))
  }

  /** Anything written by EncodeSigned reads back as the narrowed value, leaving what followed. */
  lemma ReadSignedEncoded(v: int, n: nat, tail: seq<Byte>)
    requires n >= 1
    ensures ReadSigned(EncodeSigned(v, n) + tail, n) == Ok(Read(Narrow(v, n), tail))
  {
    var w := EncodeSigned(v, n) + tail;
    assert w[..n] == EncodeSigned(v, n);
    assert w[n..] == tail;
    DecodeEncodeSigned(v, n);
  }

  /** A length written by writeInt reads back by readInt, leaving what followed. */
  lemma ReadIntLength(n: int, tail: seq<Byte>)
    requires 0 <= n < 0x8000_0000
    ensures ReadSigned(IntBytes(n) + tail, 4) == Ok(Read(n, tail))
  {
    ReadSignedEncoded(n, 4, tail);
    WidthBounds();
  }

  // ---------------------------------------------------------------------
  // String.length() of a string given by its encoded bytes
  // ---------------------------------------------------------------------

  /** A UTF-8 continuation byte, 10xxxxxx. */
  predicate Continuation(b: Byte) { 0x80 <= b < 0xC0 }

  /**
   * Whether byte i of the encoding s begins a UTF-16 unit of the string:
   * every byte that starts a character does, and so does the second byte of
   * a four-byte sequence, whose character is a surrogate pair that
   * String.length() counts twice.
   */
  predicate StartsUnit(s: Str, i: nat)
    requires i < |s|
  {
    !Continuation(s[i]) || (i > 0 && s[i - 1] >= 0xF0)
  }

  /** The UTF-16 units that the bytes of s from position i on begin. */
  function UnitsFrom(s: Str, i: nat): (r: nat)
    requires i <= |s|
    ensures r <= |s| - i
    decreases |s| - i
  {
    if i == |s| then 0 else (if StartsUnit(s, i) then 1 else 0) + UnitsFrom(s, i + 1)
  }

  /** String.length() of the string whose encoding is s: its number of UTF-16 units. */
  function JavaLength(s: Str): (r: nat)
    ensures r <= |s|
  {
    UnitsFrom(s, 0)
  }

  /** A string of single-byte characters has as many characters as bytes. */
  lemma JavaLengthAscii(s: Str)
    requires forall i :: 0 <= i < |s| ==> s[i] < 0x80
    ensures JavaLength(s) == |s|
  {
    AsciiUnitsFrom(s, 0);
  }

  lemma {:induction false} AsciiUnitsFrom(s: Str, i: nat)
    requires i <= |s|
    requires forall k :: 0 <= k < |s| ==> s[k] < 0x80
    ensures UnitsFrom(s, i) == |s| - i
    decreases |s| - i
  {
    if i < |s| {
      AsciiUnitsFrom(s, i + 1);
    }
  }

  /** A two-byte character is one unit, as "é" (C3 A9) is. */
  lemma TwoByteCharacter(a: Byte, b: Byte)
    requires 0xC0 <= a < 0xE0 && Continuation(b)
    ensures JavaLength([a, b]) == 1
  {
    assert UnitsFrom([a, b], 1) == 0 + UnitsFrom([a, b], 2);
  }

  /** A four-byte character is a surrogate pair, two units, as "😀" (F0 9F 98 80) is. */
  lemma FourByteCharacter(a: Byte, b: Byte, c: Byte, d: Byte)
    requires a >= 0xF0 && Continuation(b) && Continuation(c) && Continuation(d)
    ensures JavaLength([a, b, c, d]) == 2
  {
    var s := [a, b, c, d];
    assert StartsUnit(s, 0) && StartsUnit(s, 1) && !StartsUnit(s, 2) && !StartsUnit(s, 3);
    assert UnitsFrom(s, 4) == 0;
    assert UnitsFrom(s, 3) == 0;
    assert UnitsFrom(s, 2) == 0;
    assert UnitsFrom(s, 1) == 1;
  }

  /** The longest string that a signed 16-bit length can describe: Short.MAX_VALUE. */
  const ShortMax: int := 0x7FFF

  /** Success past step j is step j succeeding and success past j + 1, for every step of w. */
  predicate StepsExact(ok: seq<bool>, w: seq<bool>)
    requires |ok| == |w| + 1
  {
    forall j :: 0 <= j < |w| ==> ok[j] == (w[j] && ok[j + 1])
  }

  /** Success past step j needs step j to succeed and success past j + 1, for every step of w. */
  predicate StepsNeed(ok: seq<bool>, w: seq<bool>)
    requires |ok| == |w| + 1
  {
    forall j :: 0 <= j < |w| ==> ok[j] ==> w[j] && ok[j + 1]
  }

  /**
   * A loop that goes on past step j exactly when step j succeeds and the
   * loop goes on past j + 1, and that ends well after its last step, goes
   * on past step i exactly when every step from i on succeeds.
   */
  lemma {:induction false} ChainAll(ok: seq<bool>, w: seq<bool>, i: nat)
    requires |ok| == |w| + 1 && i <= |w| && ok[|w|] && StepsExact(ok, w)
    ensures ok[i] <==> forall j :: i <= j < |w| ==> w[j]
    decreases |w| - i
  {
    if i < |w| {
      ChainAll(ok, w, i + 1);
    }
  }

  /** The one direction of ChainAll that holds when success past j only implies step j and success past j + 1. */
  lemma {:induction false} ChainHead(ok: seq<bool>, w: seq<bool>, i: nat)
    requires |ok| == |w| + 1 && i <= |w| && StepsNeed(ok, w)
    ensures ok[i] ==> forall j :: i <= j < |w| ==> w[j]
    decreases |w| - i
  {
    if i < |w| {
      ChainHead(ok, w, i + 1);
    }
  }
}
