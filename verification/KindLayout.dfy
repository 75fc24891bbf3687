/** What each kind of value looks like in memory, in plain numbers: its range, its bytes, and the room it takes. */
module KindLayouts {
  import opened FixedWidth
  import opened ByteOrder
  import opened TypedValues
  import W = WriterMachine
  import R = ReaderMachine
  import Writers = BinaryMemoryWriters
  import ReaderFacts

  lemma Powers()
    ensures Pow256(0) == 1 && Pow256(1) == 0x100 && Pow256(2) == 0x1_0000 && Pow256(3) == 0x100_0000
    ensures Pow256(4) == 0x1_0000_0000 && Pow256(8) == 0x1_0000_0000_0000_0000
    ensures Pow256(16) == 0x1_0000_0000_0000_0000_0000_0000_0000_0000
    ensures HalfRange(1) == 0x80 && HalfRange(2) == 0x8000 && HalfRange(4) == 0x8000_0000
    ensures HalfRange(8) == 0x8000_0000_0000_0000 && HalfRange(16) == 0x8000_0000_0000_0000_0000_0000_0000_0000
  {
    assert Pow256(3) == 256 * Pow256(2) && Pow256(4) == 256 * Pow256(3);
    assert Pow256(5) == 256 * Pow256(4) && Pow256(6) == 256 * Pow256(5);
    assert Pow256(7) == 256 * Pow256(6) && Pow256(8) == 256 * Pow256(7);
    assert Pow256(9) == 256 * Pow256(8) && Pow256(10) == 256 * Pow256(9);
    assert Pow256(11) == 256 * Pow256(10) && Pow256(12) == 256 * Pow256(11);
    assert Pow256(13) == 256 * Pow256(12) && Pow256(14) == 256 * Pow256(13);
    assert Pow256(15) == 256 * Pow256(14) && Pow256(16) == 256 * Pow256(15);
  }

  // ----- Ranges -----

  /** The numbers of each integer kind. */
  lemma IntegerRanges(n: int)
    ensures Integer(SByte, n).WellTyped() <==> -0x80 <= n < 0x80
    ensures Integer(UByte, n).WellTyped() <==> 0 <= n < 0x100
    ensures Integer(Int16, n).WellTyped() <==> -0x8000 <= n < 0x8000
    ensures Integer(UInt16, n).WellTyped() <==> 0 <= n < 0x1_0000
    ensures Integer(Int32, n).WellTyped() <==> -0x8000_0000 <= n < 0x8000_0000
    ensures Integer(UInt32, n).WellTyped() <==> 0 <= n < 0x1_0000_0000
    ensures Integer(Int64, n).WellTyped() <==> -0x8000_0000_0000_0000 <= n < 0x8000_0000_0000_0000
    ensures Integer(UInt64, n).WellTyped() <==> 0 <= n < 0x1_0000_0000_0000_0000
    ensures Integer(Int128, n).WellTyped() <==>
      -0x8000_0000_0000_0000_0000_0000_0000_0000 <= n < 0x8000_0000_0000_0000_0000_0000_0000_0000
    ensures Integer(UInt128, n).WellTyped() <==> 0 <= n < 0x1_0000_0000_0000_0000_0000_0000_0000_0000
  {
    Powers();
    hide Pow256, HalfRange;
  }

  /** The bit patterns of each floating-point kind. */
  lemma FloatRanges(bits: nat)
    ensures Float(Half, bits).WellTyped() <==> bits < 0x1_0000
    ensures Float(Single, bits).WellTyped() <==> bits < 0x1_0000_0000
    ensures Float(Double, bits).WellTyped() <==> bits < 0x1_0000_0000_0000_0000
  {
    Powers();
    hide Pow256, HalfRange;
  }

  /** The components of each vector kind are that many singles. */
  lemma VectorRanges(c: seq<nat>)
    ensures Vector(Vector2, c).WellTyped() <==> |c| == 2 && forall i :: 0 <= i < |c| ==> c[i] < 0x1_0000_0000
    ensures Vector(Vector3, c).WellTyped() <==> |c| == 3 && forall i :: 0 <= i < |c| ==> c[i] < 0x1_0000_0000
    ensures Vector(Vector4, c).WellTyped() <==> |c| == 4 && forall i :: 0 <= i < |c| ==> c[i] < 0x1_0000_0000
    ensures Vector(Quaternion, c).WellTyped() <==> |c| == 4 && forall i :: 0 <= i < |c| ==> c[i] < 0x1_0000_0000
  {
    Powers();
    hide Pow256, HalfRange;
  }

  // ----- Bytes -----

  /** The number of bytes of each kind. */
  lemma EncodedSizes(bigEndian: bool, n: int, bits: nat, flag: bool)
    ensures |Encode(bigEndian, Integer(SByte, n))| == 1 && |Encode(bigEndian, Integer(UByte, n))| == 1
    ensures |Encode(bigEndian, Integer(Int16, n))| == 2 && |Encode(bigEndian, Integer(UInt16, n))| == 2
    ensures |Encode(bigEndian, Integer(Int32, n))| == 4 && |Encode(bigEndian, Integer(UInt32, n))| == 4
    ensures |Encode(bigEndian, Integer(Int64, n))| == 8 && |Encode(bigEndian, Integer(UInt64, n))| == 8
    ensures |Encode(bigEndian, Integer(Int128, n))| == 16 && |Encode(bigEndian, Integer(UInt128, n))| == 16
    ensures |Encode(bigEndian, Float(Half, bits))| == 2 && |Encode(bigEndian, Float(Single, bits))| == 4
    ensures |Encode(bigEndian, Float(Double, bits))| == 8 && |Encode(bigEndian, Bool(flag))| == 1
  {
    hide Canonical, LowBits, Pow256, HalfRange;
  }

  lemma VectorSizes(bigEndian: bool, c: seq<nat>)
    ensures Vector(Vector2, c).WellTyped() ==> |Encode(bigEndian, Vector(Vector2, c))| == 8
    ensures Vector(Vector3, c).WellTyped() ==> |Encode(bigEndian, Vector(Vector3, c))| == 12
    ensures Vector(Vector4, c).WellTyped() ==> |Encode(bigEndian, Vector(Vector4, c))| == 16
    ensures Vector(Quaternion, c).WellTyped() ==> |Encode(bigEndian, Vector(Quaternion, c))| == 16
  {
  }

  /** Where each byte of a number stands: the lowest first, or the highest. A negative number stands as the number
      2^(8w) above it. */
  lemma NumberBytes(bigEndian: bool, v: Value, i: nat)
    requires v.WellTyped() && (v.Integer? || v.Float?) && i < |Encode(bigEndian, v)|
    ensures var w := |Encode(bigEndian, v)|;
      var bits := if v.Float? then v.bits else if v.number < 0 then v.number + Pow256(w) else v.number;
      bits >= 0 && Encode(bigEndian, v)[i] == bits / Pow256(if bigEndian then w - 1 - i else i) % 256
  {
    var w := v.KindOf().Size();
    var bits := if v.Float? then v.bits else LowBits(w, v.number);
    assert Encode(bigEndian, v) == Canonical(bigEndian, w, bits);
    if v.Integer? { LowBitsOf(v.kind.IsSigned(), w, v.number); }
    hide LowBits, HalfRange, Encode, Pow256;
    CanonicalPlace(bigEndian, w, bits, i);
  }

  lemma CanonicalPlace(bigEndian: bool, w: nat, bits: nat, i: nat)
    requires i < w
    ensures Canonical(bigEndian, w, bits)[i] == bits / Pow256(if bigEndian then w - 1 - i else i) % 256
  {
    if bigEndian { BigPlace(w, bits, i); } else { LittlePlace(w, bits, i); }
    hide Pow256;
  }

  lemma LowBitsOf(signed: bool, w: nat, n: int)
    requires w > 0 && FitsIn(signed, w, n)
    ensures LowBits(w, n) == if n < 0 then n + Pow256(w) else n
  {
    hide Pow256, HalfRange;
    var p := Pow256(w);
    if n < 0 {
      ModUnique(n, p, -1, n + p);
    } else {
      ModUnique(n, p, 0, n);
    }
  }

  /** Components stand one after the other, in order. */
  lemma {:induction false} ComponentBytes(bigEndian: bool, c: seq<nat>, i: nat)
    requires i < |c|
    ensures EncodeComponents(bigEndian, c)[4 * i..4 * i + 4] == Canonical(bigEndian, 4, c[i])
  {
    hide Canonical;
    var bs, rest := EncodeComponents(bigEndian, c), EncodeComponents(bigEndian, c[1..]);
    if i == 0 {
      assert bs[0..4] == Canonical(bigEndian, 4, c[0]);
    } else {
      ComponentBytes(bigEndian, c[1..], i - 1);
      assert bs[4..] == rest;
      assert bs[4 * i..4 * i + 4] == rest[4 * (i - 1)..4 * (i - 1) + 4];
    }
  }

  /** A vector is its components as singles, in order. */
  lemma VectorBytes(bigEndian: bool, k: Kind, c: seq<nat>, i: nat)
    requires i < |c| && c[i] < 0x1_0000_0000
    ensures Encode(bigEndian, Vector(k, c))[4 * i..4 * i + 4] == Encode(bigEndian, Float(Single, c[i]))
  {
    ComponentBytes(bigEndian, c, i);
  }

  /** A Boolean is one byte, 1 or 0, and nothing else is read as one. */
  lemma BooleanBytes(bigEndian: bool, b: Byte)
    ensures Encode(bigEndian, Bool(true)) == [1] && Encode(bigEndian, Bool(false)) == [0]
    ensures Decode(bigEndian, Boolean, [b]) ==
      if b == 0 then Some(Bool(false)) else if b == 1 then Some(Bool(true)) else None
  {
  }

  /** The bytes have the size of an integer kind and are read as the number. */
  predicate ReadAs(bigEndian: bool, k: Kind, bs: seq<Byte>, n: int) {
    |bs| == k.Size() && Decode(bigEndian, k, bs) == Some(Integer(k, n))
  }

  /** All bits set: -1 where the kind is signed, its largest number where it is not. */
  lemma AllOnes(bigEndian: bool, bs: seq<Byte>)
    requires forall i :: 0 <= i < |bs| ==> bs[i] == 0xFF
    ensures |bs| == 1 ==> ReadAs(bigEndian, SByte, bs, -1) && ReadAs(bigEndian, UByte, bs, 0xFF)
    ensures |bs| == 2 ==> ReadAs(bigEndian, Int16, bs, -1) && ReadAs(bigEndian, UInt16, bs, 0xFFFF)
    ensures |bs| == 4 ==> ReadAs(bigEndian, Int32, bs, -1) && ReadAs(bigEndian, UInt32, bs, 0xFFFF_FFFF)
    ensures |bs| == 8 ==> ReadAs(bigEndian, Int64, bs, -1) && ReadAs(bigEndian, UInt64, bs, 0xFFFF_FFFF_FFFF_FFFF)
    ensures |bs| == 16 ==>
      && ReadAs(bigEndian, Int128, bs, -1)
      && ReadAs(bigEndian, UInt128, bs, 0xFFFF_FFFF_FFFF_FFFF_FFFF_FFFF_FFFF_FFFF)
  {
    Powers();
    hide ReadAs, Pow256, HalfRange;
    if |bs| == 1 { OnesDecode(bigEndian, SByte, bs); OnesDecode(bigEndian, UByte, bs); }
    if |bs| == 2 { OnesDecode(bigEndian, Int16, bs); OnesDecode(bigEndian, UInt16, bs); }
    if |bs| == 4 { OnesDecode(bigEndian, Int32, bs); OnesDecode(bigEndian, UInt32, bs); }
    if |bs| == 8 { OnesDecode(bigEndian, Int64, bs); OnesDecode(bigEndian, UInt64, bs); }
    if |bs| == 16 { OnesDecode(bigEndian, Int128, bs); OnesDecode(bigEndian, UInt128, bs); }
  }

  lemma OnesDecode(bigEndian: bool, k: Kind, bs: seq<Byte>)
    requires k.IsInteger() && |bs| == k.Size() && forall i :: 0 <= i < |bs| ==> bs[i] == 0xFF
    ensures ReadAs(bigEndian, k, bs, if k.IsSigned() then -1 else Pow256(|bs|) - 1)
  {
    hide FromCanonical, Pow256, HalfRange;
    OnesValue(bigEndian, bs);
  }

  lemma {:induction false} OnesValue(bigEndian: bool, bs: seq<Byte>)
    requires forall i :: 0 <= i < |bs| ==> bs[i] == 0xFF
    ensures FromCanonical(bigEndian, bs) == Pow256(|bs|) - 1
    decreases |bs|
  {
    if bs != [] {
      OnesValue(bigEndian, if bigEndian then bs[..|bs| - 1] else bs[1..]);
    }
  }

  // ----- Writes, reservations and reads -----

  /** `t` is `s` with `bs` at the cursor, which has moved past them; nothing else changed but, maybe, the table. */
  ghost predicate WroteOnly(s: W.State, t: W.State, bs: seq<Byte>) {
    && 0 <= s.pos <= |s.bytes| && t.pos == s.pos + |bs|
    && |t.bytes| == (if t.pos <= |s.bytes| then |s.bytes| else t.pos)
    && (forall i :: 0 <= i < |bs| ==> t.bytes[s.pos + i] == bs[i])
    && (forall j :: 0 <= j < |s.bytes| && !(s.pos <= j < t.pos) ==> t.bytes[j] == s.bytes[j])
    && t == s.(bytes := t.bytes, pos := t.pos, table := t.table)
  }

  lemma PutWrites(s: W.State, bs: seq<Byte>)
    requires W.Ready(s)
    ensures WroteOnly(s, W.Put(s, bs), bs) && W.Put(s, bs).table == s.table
  {
  }

  /** A write completes exactly when its bytes fit, which on a stream they always do. It then puts the bytes of the value at
      the cursor and changes nothing else; what is stored in the other order on a big-endian host's stream is stored so. */
  lemma WriteExact(s: W.State, v: Value)
    requires W.Ready(s) && v.WellTyped()
    ensures var o, bs := W.Step(s, W.Write(v)), Encode(if s.sink == Stream(false) then !s.bigEndian else s.bigEndian, v);
      && (o.ok <==> s.sink.Stream? || s.pos + |bs| <= |s.bytes|)
      && (o.ok ==> WroteOnly(s, o.s, bs) && o.s.table == s.table)
      && (!o.ok && !v.Vector? ==> o.s == s)
  {
    hide Encode, Chunks, W.Splice, W.Put, WroteOnly;
    var chunks := Chunks(s.sink, s.bigEndian, v);
    ChunksAreEncoding(s.sink, s.bigEndian, v);
    W.EmitIsPut(s, chunks);
    PutWrites(s, Encode(StoredOrder(s.sink, s.bigEndian), v));
    if !v.Vector? { OneChunk(s, v); }
  }

  lemma OneChunk(s: W.State, v: Value)
    requires W.Ready(s) && !v.Vector?
    ensures !W.Step(s, W.Write(v)).ok ==> W.Step(s, W.Write(v)).s == s
  {
    hide ScalarBytes, HostImage, W.Splice;
    var chunks := Chunks(s.sink, s.bigEndian, v);
    assert chunks == [chunks[0]];
    W.EmitOne(s, chunks[0]);
  }

  /** A reservation takes the room of a value of its kind, filled with 0xFE, and files the cursor under its key. It is refused
      without effect when the key is taken; where the room is short it fills what there is. */
  lemma ReserveExact(s: W.State, name: string, v: Value)
    requires W.Ready(s) && v.WellTyped()
    ensures var o, size := W.Step(s, W.Reserve(name, v.KindOf())), |Encode(s.bigEndian, v)|;
      var key := W.Name(name, v.KindOf()).Key();
      && (o.ok <==> key !in s.table && (s.sink.Stream? || s.pos + size <= |s.bytes|))
      && (o.ok ==> WroteOnly(s, o.s, seq(size, _ => 0xFE as Byte)) && o.s.table == s.table[key := s.pos])
      && (key in s.table ==> o.s == s)
      && (!o.ok && key !in s.table ==>
        WroteOnly(s, o.s, seq(|s.bytes| - s.pos, _ => 0xFE as Byte)) && o.s.table == s.table[key := s.pos])
  {
    hide Encode, W.Splice, W.Put, W.Emit, WroteOnly, W.Filler, W.KeyOf, W.TypeName;
    EncodeSize(s.bigEndian, v);
    var kind := v.KindOf();
    var t := s.(table := s.table[W.KeyOf(name, W.TypeName(kind)) := s.pos]);
    W.FillerBytes(kind.Size());
    W.EmitIsPut(t, W.Filler(kind.Size()));
    FilledWrites(s, t, kind.Size());
    if !W.Fits(s, kind.Size()) {
      ShortFiller(t, kind.Size());
      FilledWrites(s, t, |s.bytes| - s.pos);
    }
  }

  lemma FilledWrites(s: W.State, t: W.State, n: nat)
    requires W.Ready(s) && W.Ready(t) && t == s.(table := t.table)
    ensures WroteOnly(s, W.Put(t, seq(n, _ => 0xFE as Byte)), seq(n, _ => 0xFE as Byte))
    ensures W.Put(t, seq(n, _ => 0xFE as Byte)).table == t.table
  {
    PutWrites(t, seq(n, _ => 0xFE as Byte));
  }

  lemma ShortFiller(t: W.State, n: nat)
    requires W.Ready(t) && !W.Fits(t, n)
    ensures W.Emit(t, W.Filler(n)) == W.Outcome(W.Put(t, seq(|t.bytes| - t.pos, _ => 0xFE as Byte)), false)
  {
    var room := |t.bytes| - t.pos;
    assert W.Filler(n)[..room] == W.Filler(room);
    W.FillerBytes(room);
    W.EmitStops(t, W.Filler(n), room);
  }

  /** A fill of an outstanding key forgets it and writes the value at its place. A write that completes leaves the cursor where
      it was before the fill; one that throws leaves it at the place, nothing written but components of a vector. */
  lemma FillExact(s: W.State, name: string, v: Value)
    requires W.Ready(s) && v.WellTyped() && W.Name(name, W.TakenKind(v.KindOf())).Key() in s.table
    ensures var key := W.Name(name, W.TakenKind(v.KindOf())).Key();
      var place := s.(table := s.table - {key}, pos := s.table[key]);
      var o, w := W.Step(s, W.Fill(name, v)), W.Step(place, W.Write(v));
      && W.Ready(place) && o.ok == w.ok
      && (o.ok ==> o.s == w.s.(pos := s.pos))
      && (!o.ok ==> o.s == w.s && (!v.Vector? ==> o.s == place))
  {
    var key := W.Name(name, W.TakenKind(v.KindOf())).Key();
    var place := s.(table := s.table - {key}, pos := s.table[key]);
    WriteExact(place, v);
    hide W.Emit, Chunks, WroteOnly, Encode;
  }

  /** A fill of a key that is not outstanding is refused without effect. */
  lemma FillRefused(s: W.State, name: string, v: Value)
    requires W.Ready(s) && W.Name(name, W.TakenKind(v.KindOf())).Key() !in s.table
    ensures W.Step(s, W.Fill(name, v)) == W.Outcome(s, false)
  {
  }

  /** A typed read that succeeds returns a value of its kind whose bytes stand at the cursor, and moves past them; and it
      succeeds wherever such bytes stand. */
  lemma ReadExactly(s: R.State, v: Value)
    requires R.Ready(s) && v.WellTyped()
    ensures var bs := Encode(s.bigEndian, v);
      R.ReadOne(s, v.KindOf()).value == Some(v) <==> s.pos + |bs| <= |s.bytes| && s.bytes[s.pos..s.pos + |bs|] == bs
    ensures R.ReadOne(s, v.KindOf()).value == Some(v) ==>
      R.ReadOne(s, v.KindOf()).s == R.At(s, s.pos + |Encode(s.bigEndian, v)|)
  {
    hide Encode, Decode, R.ReadOne;
    EncodeSize(s.bigEndian, v);
    DecodeOfEncode(s.bigEndian, v);
    ReaderFacts.ReadIsDecode(s, v.KindOf());
    if s.pos + v.KindOf().Size() <= |s.bytes| {
      EncodeOfDecode(s.bigEndian, v.KindOf(), ReaderFacts.Slice(s, v.KindOf().Size()));
    }
  }

  /** What decodes encodes back to the same bytes. */
  lemma EncodeOfDecode(bigEndian: bool, k: Kind, bs: seq<Byte>)
    requires |bs| == k.Size()
    ensures Decode(bigEndian, k, bs).Some? ==>
      Decode(bigEndian, k, bs).value.WellTyped() && Decode(bigEndian, k, bs).value.KindOf() == k
      && Encode(bigEndian, Decode(bigEndian, k, bs).value) == bs
  {
    hide Pow256, HalfRange;
    FromCanonicalBound(bigEndian, bs);
    CanonicalOfFromCanonical(bigEndian, bs);
    if k.IsInteger() {
      DenotedFits(k.IsSigned(), k.Size(), FromCanonical(bigEndian, bs));
      DenotedLowBits(k.IsSigned(), k.Size(), FromCanonical(bigEndian, bs));
    } else if k.IsVector() {
      ComponentsOfNumbers(bigEndian, k.Components(), bs);
    }
  }

  lemma DenotedLowBits(signed: bool, w: nat, bits: nat)
    requires w > 0 && bits < Pow256(w)
    ensures LowBits(w, Denoted(signed, w, bits)) == bits
  {
    hide Pow256, HalfRange;
    var p := Pow256(w);
    if signed && bits >= HalfRange(w) {
      ModUnique(bits - p, p, -1, bits);
    } else {
      ModUnique(bits, p, 0, bits);
    }
  }

  lemma {:induction false} ComponentsOfNumbers(bigEndian: bool, n: nat, bs: seq<Byte>)
    requires |bs| == 4 * n
    ensures AllSingles(DecodeNumbers(bigEndian, 4, n, bs))
    ensures EncodeComponents(bigEndian, DecodeNumbers(bigEndian, 4, n, bs)) == bs
  {
    hide Pow256, Canonical, FromCanonical;
    if n > 0 {
      FromCanonicalBound(bigEndian, bs[..4]);
      CanonicalOfFromCanonical(bigEndian, bs[..4]);
      ComponentsOfNumbers(bigEndian, n - 1, bs[4..]);
      var c := DecodeNumbers(bigEndian, 4, n, bs);
      assert c[1..] == DecodeNumbers(bigEndian, 4, n - 1, bs[4..]);
      assert bs == bs[..4] + bs[4..];
    }
  }

  // ----- Variable widths -----

  /** Exactly the widths 1, 2, 4 and 8 are accepted; numbers of a width take that many bytes and have its range. */
  lemma VarWidths(signed: bool, size: int, bigEndian: bool, n: int)
    ensures Writers.VarKind(signed, size).Some? <==> size == 1 || size == 2 || size == 4 || size == 8
    ensures Writers.VarKind(signed, size).Some? ==>
      var v := Integer(Writers.VarKind(signed, size).value, n);
      && |Encode(bigEndian, v)| == size
      && (size == 1 ==> (v.WellTyped() <==> if signed then -0x80 <= n < 0x80 else 0 <= n < 0x100))
      && (size == 2 ==> (v.WellTyped() <==> if signed then -0x8000 <= n < 0x8000 else 0 <= n < 0x1_0000))
      && (size == 4 ==> (v.WellTyped() <==> if signed then -0x8000_0000 <= n < 0x8000_0000 else 0 <= n < 0x1_0000_0000))
      && (size == 8 ==> (v.WellTyped() <==>
            if signed then -0x8000_0000_0000_0000 <= n < 0x8000_0000_0000_0000 else 0 <= n < 0x1_0000_0000_0000_0000))
  {
    IntegerRanges(n);
    EncodedSizes(bigEndian, n, 0, false);
    hide Encode;
  }
}
