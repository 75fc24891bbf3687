/** The values the binary readers and writers move, the canonical bytes of each, and the pieces
    in which the writers hand those bytes to the buffer. Floating-point values are bit patterns. */
module TypedValues {
  import opened ByteOrder

  datatype Option<+T> = None | Some(value: T)

  datatype Kind =
    | SByte | UByte | Int16 | UInt16 | Int32 | UInt32 | Int64 | UInt64 | Int128 | UInt128
    | Half | Single | Double | Boolean
    | Vector2 | Vector3 | Vector4 | Quaternion
  {
    predicate IsInteger() {
      SByte? || UByte? || Int16? || UInt16? || Int32? || UInt32? || Int64? || UInt64? || Int128? || UInt128?
    }

    predicate IsSigned() {
      SByte? || Int16? || Int32? || Int64? || Int128?
    }

    predicate IsFloat() {
      Half? || Single? || Double?
    }

    predicate IsVector() {
      Vector2? || Vector3? || Vector4? || Quaternion?
    }

    /** Number of 4-byte components of a vector kind. */
    function Components(): nat {
      match this
      case Vector2 => 2
      case Vector3 => 3
      case Vector4 => 4
      case Quaternion => 4
      case _ => 0
    }

    /** `sizeof` of the kind. */
    function Size(): (n: nat)
      ensures 1 <= n <= 16
      ensures IsVector() ==> n == 4 * Components()
    {
      match this
      case SByte => 1
      case UByte => 1
      case Int16 => 2
      case UInt16 => 2
      case Int32 => 4
      case UInt32 => 4
      case Int64 => 8
      case UInt64 => 8
      case Int128 => 16
      case UInt128 => 16
      case Half => 2
      case Single => 4
      case Double => 8
      case Boolean => 1
      case Vector2 => 8
      case Vector3 => 12
      case Vector4 => 16
      case Quaternion => 16
    }
  }

  datatype Value =
    | Integer(kind: Kind, number: int)
    | Float(kind: Kind, bits: nat)
    | Bool(flag: bool)
    | Vector(kind: Kind, components: seq<nat>)
  {
    function KindOf(): Kind {
      if Bool? then Boolean else kind
    }

    ghost predicate WellTyped() {
      match this
      case Integer(k, n) => k.IsInteger() && FitsIn(k.IsSigned(), k.Size(), n)
      case Float(k, b) => k.IsFloat() && b < Pow256(k.Size())
      case Bool(_) => true
      case Vector(k, c) => k.IsVector() && |c| == k.Components() && AllSingles(c)
    }
  }

  ghost predicate AllSingles(c: seq<nat>) {
    forall i :: 0 <= i < |c| ==> c[i] < Pow256(4)
  }

  // ----- Two's complement -----

  /** Half of the range of `w` bytes: 2^(8w - 1). */
  function HalfRange(w: nat): (h: int)
    requires w > 0
    ensures 2 * h == Pow256(w) && h > 0
  {
    128 * Pow256(w - 1)
  }

  /** `n` is in the signed or unsigned range of `w` bytes. */
  predicate FitsIn(signed: bool, w: nat, n: int)
    requires w > 0
  {
    if signed then -HalfRange(w) <= n < HalfRange(w) else 0 <= n < Pow256(w)
  }

  /** The low `w` bytes of `n`, as an unsigned value. */
  function LowBits(w: nat, n: int): (b: nat)
    ensures b < Pow256(w)
  {
    n % Pow256(w)
  }

  /** The number that `w` bytes denote. */
  function Denoted(signed: bool, w: nat, bits: nat): int
    requires w > 0
  {
    if signed && bits >= HalfRange(w) then bits - Pow256(w) else bits
  }

  lemma ProductAtLeast(d: int, p: int)
    requires d >= 1 && p > 0
    ensures d * p >= p
  {
    assert (d - 1) * p >= 0;
  }

  /** Euclidean remainders are unique. */
  lemma ModUnique(n: int, p: int, q: int, r: int)
    requires p > 0 && 0 <= r < p && n == q * p + r
    ensures n % p == r
  {
    var q' := n / p;
    assert n == q' * p + n % p;
    var d := q - q';
    assert d * p == q * p - q' * p;
    if d >= 1 {
      ProductAtLeast(d, p);
    } else if d <= -1 {
      ProductAtLeast(-d, p);
    }
  }

  lemma CongruentToRemainder(n: int, p: int)
    requires p > 0
    ensures (n % p - n) % p == 0 && (n % p - p - n) % p == 0
  {
    var q := n / p;
    assert n == q * p + n % p;
    assert (-q) * p == -(q * p) && (-q - 1) * p == -(q * p) - p;
    ModUnique(n % p - n, p, -q, 0);
    ModUnique(n % p - p - n, p, -q - 1, 0);
  }

  lemma LowBitsDenoted(signed: bool, w: nat, n: int)
    requires w > 0 && FitsIn(signed, w, n)
    ensures Denoted(signed, w, LowBits(w, n)) == n
  {
    ModUnique(n, Pow256(w), if n < 0 then -1 else 0, if n < 0 then n + Pow256(w) else n);
  }

  lemma DenotedFits(signed: bool, w: nat, bits: nat)
    requires w > 0 && bits < Pow256(w)
    ensures FitsIn(signed, w, Denoted(signed, w, bits))
  {
  }

  lemma NarrowingCongruent(signed: bool, w: nat, n: int)
    requires w > 0
    ensures (Denoted(signed, w, LowBits(w, n)) - n) % Pow256(w) == 0
  {
    hide Pow256, HalfRange;
    CongruentToRemainder(n, Pow256(w));
  }

  /** Casting to a narrow integer and widening again is the identity exactly for the values that fit. */
  lemma NarrowingExact(signed: bool, w: nat, n: int)
    requires w > 0
    ensures FitsIn(signed, w, Denoted(signed, w, LowBits(w, n)))
    ensures (Denoted(signed, w, LowBits(w, n)) - n) % Pow256(w) == 0
    ensures Denoted(signed, w, LowBits(w, n)) == n <==> FitsIn(signed, w, n)
  {
    hide Pow256, HalfRange, LowBits, Denoted;
    DenotedFits(signed, w, LowBits(w, n));
    NarrowingCongruent(signed, w, n);
    if FitsIn(signed, w, n) {
      LowBitsDenoted(signed, w, n);
    }
  }

  // ----- Canonical bytes of a value -----

  function EncodeComponents(bigEndian: bool, c: seq<nat>): (bs: seq<Byte>)
    ensures |bs| == 4 * |c|
  {
    if c == [] then [] else Canonical(bigEndian, 4, c[0]) + EncodeComponents(bigEndian, c[1..])
  }

  /** `n` consecutive numbers of `w` bytes. */
  function DecodeNumbers(bigEndian: bool, w: nat, n: nat, bs: seq<Byte>): (c: seq<nat>)
    requires |bs| == w * n
    ensures |c| == n
  {
    if n == 0 then [] else
      assert w * n == w + w * (n - 1);
      [FromCanonical(bigEndian, bs[..w])] + DecodeNumbers(bigEndian, w, n - 1, bs[w..])
  }

  function Encode(bigEndian: bool, v: Value): seq<Byte> {
    match v
    case Integer(k, n) => Canonical(bigEndian, k.Size(), LowBits(k.Size(), n))
    case Float(k, b) => Canonical(bigEndian, k.Size(), b)
    case Bool(b) => [if b then 1 else 0]
    case Vector(k, c) => EncodeComponents(bigEndian, c)
  }

  /** Only a Boolean can be malformed: its byte must be 0 or 1. */
  function Decode(bigEndian: bool, k: Kind, bs: seq<Byte>): Option<Value>
    requires |bs| == k.Size()
  {
    if k.IsInteger() then Some(Integer(k, Denoted(k.IsSigned(), k.Size(), FromCanonical(bigEndian, bs))))
    else if k.IsFloat() then Some(Float(k, FromCanonical(bigEndian, bs)))
    else if k.IsVector() then Some(Vector(k, DecodeNumbers(bigEndian, 4, k.Components(), bs)))
    else if bs[0] == 0 then Some(Bool(false))
    else if bs[0] == 1 then Some(Bool(true))
    else None
  }

  lemma EncodeSize(bigEndian: bool, v: Value)
    requires v.WellTyped()
    ensures |Encode(bigEndian, v)| == v.KindOf().Size()
  {
  }

  lemma {:induction false} ComponentsRoundTrip(bigEndian: bool, c: seq<nat>)
    requires AllSingles(c)
    ensures DecodeNumbers(bigEndian, 4, |c|, EncodeComponents(bigEndian, c)) == c
  {
    if c != [] {
      var bs := EncodeComponents(bigEndian, c);
      ComponentsRoundTrip(bigEndian, c[1..]);
      CanonicalRoundTrip(bigEndian, 4, c[0]);
      assert bs[..4] == Canonical(bigEndian, 4, c[0]);
      assert bs[4..] == EncodeComponents(bigEndian, c[1..]);
    }
  }

  /** Decoding the canonical bytes of a value of any kind, in either order, gives the value back. */
  lemma DecodeOfEncode(bigEndian: bool, v: Value)
    requires v.WellTyped()
    ensures |Encode(bigEndian, v)| == v.KindOf().Size()
    ensures Decode(bigEndian, v.KindOf(), Encode(bigEndian, v)) == Some(v)
  {
    match v
    case Integer(k, n) =>
      CanonicalRoundTrip(bigEndian, k.Size(), LowBits(k.Size(), n));
      LowBitsDenoted(k.IsSigned(), k.Size(), n);
    case Float(k, b) => CanonicalRoundTrip(bigEndian, k.Size(), b);
    case Bool(_) =>
    case Vector(k, c) => ComponentsRoundTrip(bigEndian, c);
  }

  // ----- The pieces the writers write -----

  /** Where the bytes go: a fixed region of memory written in the host's order, or a stream behind
      a `BinaryWriter`, which grows and always writes integers little-endian. */
  datatype Sink = Memory(hostLittle: bool) | Stream(hostLittle: bool)

  function SwappedFor(sink: Sink, bigEndian: bool, w: nat, v: nat): nat {
    if MustSwap(sink.hostLittle, bigEndian) then ReverseEndianness(w, v) else v
  }

  /** The bytes stored for a number of `w` bytes by the endian-aware scalar writers. */
  function ScalarBytes(sink: Sink, bigEndian: bool, w: nat, v: nat): (bs: seq<Byte>)
    ensures |bs| == w
  {
    match sink
    case Memory(hostLittle) => StoredBytes(hostLittle, bigEndian, w, v)
    case Stream(_) => Little(w, SwappedFor(sink, bigEndian, w, v))
  }

  function HostImages(hostLittle: bool, c: seq<nat>): seq<Byte> {
    if c == [] then [] else HostImage(hostLittle, 4, c[0]) + HostImages(hostLittle, c[1..])
  }

  function ComponentChunks(sink: Sink, bigEndian: bool, c: seq<nat>): (cs: seq<seq<Byte>>)
    ensures |cs| == |c|
  {
    if c == [] then [] else [ScalarBytes(sink, bigEndian, 4, c[0])] + ComponentChunks(sink, bigEndian, c[1..])
  }

  /** The successive writes of one value. Each is all or nothing; a vector that needs swapping takes several. */
  function Chunks(sink: Sink, bigEndian: bool, v: Value): seq<seq<Byte>> {
    match v
    case Integer(k, n) =>
      if k.Size() == 1 then [HostImage(true, 1, LowBits(1, n))]
      else [ScalarBytes(sink, bigEndian, k.Size(), LowBits(k.Size(), n))]
    case Float(k, b) => [ScalarBytes(sink, bigEndian, k.Size(), b)]
    case Bool(b) => [[if b then 1 else 0]]
    case Vector(k, c) =>
      if sink.Stream? || MustSwap(sink.hostLittle, bigEndian) then ComponentChunks(sink, bigEndian, c)
      else [HostImages(sink.hostLittle, c)]
  }

  function Flatten(chunks: seq<seq<Byte>>): seq<Byte> {
    if chunks == [] then [] else chunks[0] + Flatten(chunks[1..])
  }

  lemma FlattenOne(bs: seq<Byte>)
    ensures Flatten([bs]) == bs
  {
    assert [bs][1..] == [];
  }

  lemma {:induction false} FlattenAppend(a: seq<seq<Byte>>, b: seq<seq<Byte>>)
    ensures Flatten(a + b) == Flatten(a) + Flatten(b)
  {
    if a == [] {
      assert a + b == b;
    } else {
      assert (a + b)[1..] == a[1..] + b;
      FlattenAppend(a[1..], b);
    }
  }

  /** The order in which a sink really stores: a stream on a big-endian host stores the opposite of
      what was asked, because `BinaryWriter` is always little-endian. */
  predicate StoredOrder(sink: Sink, bigEndian: bool) {
    if sink.Stream? && !sink.hostLittle then !bigEndian else bigEndian
  }

  lemma ScalarOrder(sink: Sink, bigEndian: bool, w: nat, v: nat)
    ensures ScalarBytes(sink, bigEndian, w, v) == Canonical(StoredOrder(sink, bigEndian), w, v)
  {
    LittleOfSwap(w, v);
    BigOfSwap(w, v);
  }

  lemma {:induction false} ComponentChunksOrder(sink: Sink, bigEndian: bool, c: seq<nat>)
    ensures Flatten(ComponentChunks(sink, bigEndian, c)) == EncodeComponents(StoredOrder(sink, bigEndian), c)
  {
    if c != [] {
      ScalarOrder(sink, bigEndian, 4, c[0]);
      ComponentChunksOrder(sink, bigEndian, c[1..]);
      assert ComponentChunks(sink, bigEndian, c)[1..] == ComponentChunks(sink, bigEndian, c[1..]);
    }
  }

  lemma {:induction false} HostImagesOrder(hostLittle: bool, c: seq<nat>)
    ensures HostImages(hostLittle, c) == EncodeComponents(!hostLittle, c)
  {
    if c != [] {
      HostImagesOrder(hostLittle, c[1..]);
    }
  }

  lemma OneByteOrder(bigEndian: bool, v: nat)
    ensures Canonical(bigEndian, 1, v) == [v % 256]
  {
    assert Little(0, v / 256) == [] && Big(0, v / 256) == [];
    assert Big(1, v) == Big(0, v / 256) + [v % 256];
  }

  /** For every value, host and order: the bytes written by a memory writer are the canonical encoding, and
      the branch that writes a vector in one piece agrees with the branch that writes its components. */
  lemma ChunksAreEncoding(sink: Sink, bigEndian: bool, v: Value)
    ensures Flatten(Chunks(sink, bigEndian, v)) == Encode(StoredOrder(sink, bigEndian), v)
  {
    match v {
      case Integer(k, n) =>
        var w := k.Size();
        FlattenOne(Chunks(sink, bigEndian, v)[0]);
        ScalarOrder(sink, bigEndian, w, LowBits(w, n));
        OneByteOrder(true, LowBits(w, n));
        OneByteOrder(false, LowBits(w, n));
      case Float(k, b) =>
        FlattenOne(Chunks(sink, bigEndian, v)[0]);
        ScalarOrder(sink, bigEndian, k.Size(), b);
      case Bool(b) =>
        FlattenOne([if b then 1 else 0]);
      case Vector(k, c) =>
        if sink.Stream? || MustSwap(sink.hostLittle, bigEndian) {
          ComponentChunksOrder(sink, bigEndian, c);
        } else {
          HostImagesOrder(sink.hostLittle, c);
          FlattenOne(HostImages(sink.hostLittle, c));
        }
    }
  }

  /** `BinaryMemoryWriter` stores what was asked for on every host. */
  lemma MemoryWriterIsHostIndependent(hostLittle: bool, bigEndian: bool, v: Value)
    ensures Flatten(Chunks(Memory(hostLittle), bigEndian, v)) == Encode(bigEndian, v)
  {
    ChunksAreEncoding(Memory(hostLittle), bigEndian, v);
  }

  /** `BinaryStreamWriter` stores what was asked for exactly on little-endian hosts, or when the two
      encodings of the value coincide anyway. */
  lemma StreamWriterOrderExact(hostLittle: bool, bigEndian: bool, v: Value)
    ensures Flatten(Chunks(Stream(hostLittle), bigEndian, v)) == Encode(bigEndian, v)
       <==> (hostLittle || Encode(true, v) == Encode(false, v))
  {
    ChunksAreEncoding(Stream(hostLittle), bigEndian, v);
  }

  /** On a big-endian host, a number asked for in big-endian order is stored in little-endian order. */
  lemma StreamWriterStoresOtherOrder()
    ensures var v := Integer(Int16, 1);
      Flatten(Chunks(Stream(false), true, v)) == [1, 0] && Encode(true, v) == [0, 1]
  {
    var v := Integer(Int16, 1);
    ChunksAreEncoding(Stream(false), true, v);
    assert Pow256(2) == 65536;
    assert Encode(false, v) == Little(2, 1) == [1] + Little(1, 0);
    assert Little(1, 0) == [0] + Little(0, 0);
    assert Encode(true, v) == Big(2, 1) == Big(1, 0) + [1];
    assert Big(1, 0) == Big(0, 0) + [0];
  }

  lemma ChunksSize(sink: Sink, bigEndian: bool, v: Value)
    requires v.WellTyped()
    ensures |Flatten(Chunks(sink, bigEndian, v))| == v.KindOf().Size()
  {
    ChunksAreEncoding(sink, bigEndian, v);
    EncodeSize(StoredOrder(sink, bigEndian), v);
  }
}
