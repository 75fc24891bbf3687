/** What is written is read back, whatever hosts write and read. */
module RoundTrips {
  import opened FixedWidth
  import opened ByteOrder
  import opened TypedValues
  import W = WriterMachine
  import D = DeferredWrites
  import Writers = BinaryMemoryWriters
  import R = ReaderMachine
  import ReaderFacts

  function Writes(vs: seq<Value>): (ops: seq<W.Op>)
    ensures |ops| == |vs|
    ensures forall i :: 0 <= i < |vs| ==> ops[i] == W.Write(vs[i])
  {
    seq(|vs|, i requires 0 <= i < |vs| => W.Write(vs[i]))
  }

  function Kinds(vs: seq<Value>): (ks: seq<Kind>)
    ensures |ks| == |vs|
    ensures forall i :: 0 <= i < |vs| ==> ks[i] == vs[i].KindOf()
  {
    seq(|vs|, i requires 0 <= i < |vs| => vs[i].KindOf())
  }

  ghost predicate AllWellTyped(vs: seq<Value>) {
    forall i :: 0 <= i < |vs| ==> vs[i].WellTyped()
  }

  /** A reader placed where the writer started, over the bytes the writer left. */
  function ReaderAt(hostLittle: bool, bytes: seq<Byte>, pos: int, bigEndian: bool): R.State {
    R.State(hostLittle, bytes, pos, bigEndian, [])
  }

  lemma WritesTail(vs: seq<Value>)
    requires vs != []
    ensures Writes(vs)[0] == W.Write(vs[0]) && Writes(vs)[1..] == Writes(vs[1..])
    ensures Kinds(vs)[0] == vs[0].KindOf() && Kinds(vs)[1..] == Kinds(vs[1..])
  {
  }

  ghost predicate Stands(r: R.State, bs: seq<Byte>) {
    0 <= r.pos && r.pos + |bs| <= |r.bytes| && r.bytes[r.pos..r.pos + |bs|] == bs
  }

  lemma StandsSplit(r: R.State, head: seq<Byte>, tail: seq<Byte>)
    requires Stands(r, head + tail)
    ensures Stands(r, head) && Stands(R.At(r, r.pos + |head|), tail)
  {
    var here := r.bytes[r.pos..r.pos + |head + tail|];
    assert here[..|head|] == head && here[|head|..] == tail;
    assert r.bytes[r.pos..r.pos + |head|] == here[..|head|];
  }

  lemma ReadsOne(r: R.State, v: Value)
    requires R.Ready(r) && v.WellTyped() && Stands(r, Encode(r.bigEndian, v))
    ensures R.ReadOne(r, v.KindOf()) == R.Got(R.At(r, r.pos + |Encode(r.bigEndian, v)|), Some(v))
  {
    hide Encode, Decode, R.ReadOne;
    DecodeOfEncode(r.bigEndian, v);
    ReaderFacts.ReadIsDecode(r, v.KindOf());
  }

  /** Reading the kinds of a list of values from their encodings gives the values and stops at their end. */
  lemma {:induction false} ReadsEncodings(r: R.State, vs: seq<Value>)
    requires R.Ready(r) && AllWellTyped(vs) && Stands(r, D.Encodings(r.bigEndian, Writes(vs)))
    ensures R.ReadMany(r, Kinds(vs)) == R.Got(R.At(r, r.pos + |D.Encodings(r.bigEndian, Writes(vs))|), Some(vs))
    decreases |vs|
  {
    hide Encode, R.ReadOne, Stands;
    if vs == [] {
      assert R.At(r, r.pos) == r;
      return;
    }
    WritesTail(vs);
    var head, tail := Encode(r.bigEndian, vs[0]), D.Encodings(r.bigEndian, Writes(vs[1..]));
    StandsSplit(r, head, tail);
    ReadsOne(r, vs[0]);
    StandsInside(r, head);
    ReadsEncodings(R.At(r, r.pos + |head|), vs[1..]);
    assert [vs[0]] + vs[1..] == vs;
  }

  lemma StandsInside(r: R.State, bs: seq<Byte>)
    requires R.Ready(r) && Stands(r, bs)
    ensures R.Ready(R.At(r, r.pos + |bs|))
  {
  }

  lemma SplicedBytes(bytes: seq<Byte>, pos: int, bs: seq<Byte>)
    requires 0 <= pos <= |bytes|
    ensures W.Splice(bytes, pos, bs)[pos..pos + |bs|] == bs
  {
  }

  lemma MemoryLength(s: W.State, ops: seq<W.Op>)
    requires W.Ready(s) && s.sink.Memory? && (forall i :: 0 <= i < |ops| ==> ops[i].Write?) && W.Run(s, ops).ok
    ensures |W.Run(s, ops).s.bytes| == |s.bytes|
    decreases |ops|
  {
    hide Chunks;
    if ops != [] {
      var v := ops[0].v;
      W.EmitIsPut(s, Chunks(s.sink, s.bigEndian, v));
      MemoryLength(W.Step(s, ops[0]).s, ops[1..]);
    }
  }

  /** Write any list of typed values that fits, then read the same kinds from where writing began with the
      same `BigEndian`: the same values come back and the cursors agree, for any host that wrote and any
      host that reads. */
  lemma RoundTrip(s: W.State, vs: seq<Value>, readerLittle: bool)
    requires W.Ready(s) && s.sink.Memory? && |s.bytes| <= MAX_LENGTH && AllWellTyped(vs)
    requires W.Fits(s, D.Room(Writes(vs)))
    ensures W.Run(s, Writes(vs)).ok
    ensures var t := W.Run(s, Writes(vs)).s;
      var r := ReaderAt(readerLittle, t.bytes, s.pos, s.bigEndian);
      R.Ready(r) && R.ReadMany(r, Kinds(vs)) == R.Got(R.At(r, t.pos), Some(vs))
  {
    hide W.Run, W.Splice, Encode, D.Encodings, D.Room, R.ReadMany, AllWellTyped;
    WritesComplete(s, vs);
    D.WritesAreEncodings(s, Writes(vs));
    MemoryLength(s, Writes(vs));
    SplicedBytes(s.bytes, s.pos, D.Encodings(s.bigEndian, Writes(vs)));
    ReadsEncodings(ReaderAt(readerLittle, W.Run(s, Writes(vs)).s.bytes, s.pos, s.bigEndian), vs);
  }

  /** A run of writes completes exactly when it fits, whatever is reserved. */
  lemma {:induction false} WritesComplete(s: W.State, vs: seq<Value>)
    requires W.Ready(s) && AllWellTyped(vs)
    ensures W.Run(s, Writes(vs)).ok <==> W.Fits(s, D.Room(Writes(vs)))
    decreases |vs|
  {
    hide W.Step;
    if vs != [] {
      WritesTail(vs);
      D.WriteRoom(s, vs[0]);
      var next := W.Step(s, W.Write(vs[0]));
      if next.ok { WritesComplete(next.s, vs[1..]); }
    }
  }

  function Written(ops: seq<W.Op>): (vs: seq<Value>)
    requires forall i :: 0 <= i < |ops| ==> ops[i].Write?
    ensures |vs| == |ops|
    ensures forall i :: 0 <= i < |ops| ==> vs[i] == ops[i].v
  {
    seq(|ops|, i requires 0 <= i < |ops| => ops[i].v)
  }

  /** The same for deferred writes: after any completed program that filled all it reserved, reading gives the
      values in the order of their places, each reservation holding the value it was filled with. */
  lemma DeferredRoundTrip(s: W.State, ops: seq<W.Op>, readerLittle: bool)
    requires W.Ready(s) && s.sink.Memory? && |s.bytes| <= MAX_LENGTH
    requires s.table == map[] && D.WellFormed(ops) && W.Run(s, ops).ok && W.Run(s, ops).s.table == map[]
    ensures forall i :: 0 <= i < |D.Direct(ops)| ==> D.Direct(ops)[i].Write?
    ensures var t := W.Run(s, ops).s;
      var r := ReaderAt(readerLittle, t.bytes, s.pos, s.bigEndian);
      var vs := Written(D.Direct(ops));
      R.Ready(r) && R.ReadMany(r, Kinds(vs)) == R.Got(R.At(r, t.pos), Some(vs))
  {
    hide W.Run, D.Direct;
    D.FilledRunIsPlainWriting(s, ops);
    D.DeferredEqualsDirect(s, ops);
    D.DirectWellFormed(ops);
    D.DirectRoom(ops);
    D.CompletesExactly(s, ops);
    var vs := Written(D.Direct(ops));
    assert Writes(vs) == D.Direct(ops);
    RoundTrip(s, vs, readerLittle);
  }

  // ----- Array writers -----

  /** The number an endian-aware array writer is given for a value. */
  function NumberOf(v: Value): nat {
    match v
    case Integer(k, n) => LowBits(k.Size(), n)
    case Float(_, bits) => bits
    case Bool(b) => if b then 1 else 0
    case Vector(_, _) => 0
  }

  function NumbersOf(vs: seq<Value>): (ns: seq<nat>)
    ensures |ns| == |vs|
    ensures forall i :: 0 <= i < |vs| ==> ns[i] == NumberOf(vs[i])
  {
    seq(|vs|, i requires 0 <= i < |vs| => NumberOf(vs[i]))
  }

  /** The pieces an array writer writes: the one-byte writers go through the raw write, the others swap as the scalar
      writers do. */
  function ArrayPieces(s: W.State, k: Kind, vs: seq<Value>): (pieces: seq<seq<Byte>>)
    requires AllOf(k, vs)
  {
    if k.Size() == 1 then Writers.SingleBytes(BytesOf(vs))
    else Writers.ArrayChunks(s.sink, s.bigEndian, k.Size(), NumbersOf(vs))
  }

  ghost predicate AllOf(k: Kind, vs: seq<Value>) {
    !k.IsVector() && forall i :: 0 <= i < |vs| ==> vs[i].WellTyped() && vs[i].KindOf() == k
  }

  function BytesOf(vs: seq<Value>): (bs: seq<Byte>)
    ensures |bs| == |vs|
    ensures forall i :: 0 <= i < |vs| ==> bs[i] == (NumberOf(vs[i]) % 256) as Byte
  {
    seq(|vs|, i requires 0 <= i < |vs| => (NumberOf(vs[i]) % 256) as Byte)
  }

  /** An array writer leaves the same state, and throws at the same place, as writing the elements one by one. */
  lemma {:induction false} ArrayWriteIsScalarWrites(s: W.State, k: Kind, vs: seq<Value>)
    requires W.Ready(s) && AllOf(k, vs)
    ensures W.Emit(s, ArrayPieces(s, k, vs)) == W.Run(s, Writes(vs))
    decreases |vs|
  {
    hide ScalarBytes, W.Splice;
    if vs != [] {
      WritesTail(vs);
      FirstPiece(s, k, vs);
      hide ArrayPieces, Chunks;
      var first := Chunks(s.sink, s.bigEndian, vs[0]);
      W.EmitAppend(s, first, ArrayPieces(s, k, vs[1..]));
      var next := W.Emit(s, first);
      if next.ok {
        SamePieces(s, next.s, k, vs[1..]);
        ArrayWriteIsScalarWrites(next.s, k, vs[1..]);
      }
    }
  }

  lemma FirstPiece(s: W.State, k: Kind, vs: seq<Value>)
    requires AllOf(k, vs) && vs != []
    ensures ArrayPieces(s, k, vs) == Chunks(s.sink, s.bigEndian, vs[0]) + ArrayPieces(s, k, vs[1..])
  {
    hide ScalarBytes;
    var pieces := ArrayPieces(s, k, vs);
    if k.Size() == 1 { OnePiece(s, vs[0]); }
    assert Chunks(s.sink, s.bigEndian, vs[0]) == [pieces[0]];
    assert pieces[1..] == ArrayPieces(s, k, vs[1..]);
  }

  lemma OnePiece(s: W.State, v: Value)
    requires v.WellTyped() && v.KindOf().Size() == 1
    ensures Chunks(s.sink, s.bigEndian, v) == [[(NumberOf(v) % 256) as Byte]]
  {
    if v.Integer? {
      var x := LowBits(1, v.number);
      assert Little(0, x / 256) == [];
      assert Little(1, x) == [(x % 256) as Byte];
    }
  }

  lemma SamePieces(s: W.State, t: W.State, k: Kind, vs: seq<Value>)
    requires AllOf(k, vs) && t.sink == s.sink && t.bigEndian == s.bigEndian
    ensures ArrayPieces(t, k, vs) == ArrayPieces(s, k, vs)
  {
  }

  // ----- Variable-width integers -----

  /** Writing a variable-width integer and reading it back gives the number reduced into the range of that width,
      which is the number itself exactly when it fits. */
  lemma VarValRoundTrip(s: W.State, signed: bool, size: int, n: int, readerLittle: bool)
    requires W.Ready(s) && s.sink.Memory? && |s.bytes| <= MAX_LENGTH
    requires Writers.VarKind(signed, size).Some? && s.pos + size <= |s.bytes|
    ensures var k := Writers.VarKind(signed, size).value;
      var m := Writers.Narrowed(k, n);
      var t := W.Run(s, [W.Write(Writers.VarValue(k, n))]).s;
      var r := ReaderAt(readerLittle, t.bytes, s.pos, s.bigEndian);
      && R.Ready(r) && R.ReadOne(r, k) == R.Got(R.At(r, t.pos), Some(Integer(k, m)))
      && FitsIn(signed, size, m) && (m - n) % Pow256(size) == 0
      && (m == n <==> FitsIn(signed, size, n))
  {
    hide W.Run, Encode, R.ReadOne, LowBits, Denoted, Pow256, HalfRange;
    var k := Writers.VarKind(signed, size).value;
    var v := Writers.VarValue(k, n);
    NarrowingExact(signed, size, n);
    assert Writes([v]) == [W.Write(v)] && Kinds([v]) == [k];
    assert Writes([v])[1..] == [];
    RoundTrip(s, [v], readerLittle);
    var r := ReaderAt(readerLittle, W.Run(s, [W.Write(v)]).s.bytes, s.pos, s.bigEndian);
    assert Kinds([v])[1..] == [];
    var one := R.ReadOne(r, k);
    assert one.value.Some? ==> [one.value.value] + [] == [one.value.value];
    assert [v][0] == v;
  }

  function VarValues(k: Kind, ns: seq<int>): (vs: seq<Value>)
    ensures |vs| == |ns|
    ensures forall i :: 0 <= i < |ns| ==> vs[i] == Integer(k, ns[i])
  {
    seq(|ns|, i requires 0 <= i < |ns| => Integer(k, ns[i]))
  }

  /** The plural writer does what scalar writes do for the numbers before the first that does not fit; it completes
      exactly when all fit their width and the scalar writes complete. */
  lemma {:induction false} VarValsAreScalars(s: W.State, k: Kind, ns: seq<int>)
    requires W.Ready(s) && k.IsInteger()
    ensures Writers.EmitChecked(s, k, ns).ok
       <==> (forall i :: 0 <= i < |ns| ==> FitsIn(k.IsSigned(), k.Size(), ns[i])) && W.Run(s, Writes(VarValues(k, ns))).ok
    ensures Writers.EmitChecked(s, k, ns).ok ==> Writers.EmitChecked(s, k, ns) == W.Run(s, Writes(VarValues(k, ns)))
    decreases |ns|
  {
    hide W.Step, FitsIn;
    if ns != [] {
      WritesTail(VarValues(k, ns));
      assert VarValues(k, ns)[1..] == VarValues(k, ns[1..]);
      var first := W.Step(s, W.Write(Integer(k, ns[0])));
      if first.ok {
        VarValsAreScalars(first.s, k, ns[1..]);
      }
      assert forall i :: 1 <= i < |ns| ==> ns[i] == ns[1..][i - 1];
    }
  }

  /** The plural writer that meets a number that does not fit has done what the scalar writes do for the numbers before. */
  lemma {:induction false} VarValsStop(s: W.State, k: Kind, ns: seq<int>, n: nat)
    requires W.Ready(s) && k.IsInteger() && n < |ns|
    requires forall i :: 0 <= i < n ==> FitsIn(k.IsSigned(), k.Size(), ns[i])
    requires !FitsIn(k.IsSigned(), k.Size(), ns[n])
    ensures Writers.EmitChecked(s, k, ns) == W.Outcome(W.Run(s, Writes(VarValues(k, ns[..n]))).s, false)
    decreases n
  {
    hide W.Step, FitsIn;
    if n > 0 {
      var vs := VarValues(k, ns[..n]);
      WritesTail(vs);
      assert ns[..n][1..] == ns[1..][..n - 1];
      assert vs[1..] == VarValues(k, ns[1..][..n - 1]);
      var first := W.Step(s, W.Write(Integer(k, ns[0])));
      if first.ok { VarValsStop(first.s, k, ns[1..], n - 1); }
    }
  }

  /** What a plural read returns, as values. */
  function PluralValues(k: Kind, g: R.Got<seq<int>>): Option<seq<Value>> {
    if g.value.None? then None else Some(VarValues(k, g.value.value))
  }

  lemma DenotedValues(k: Kind, numbers: seq<nat>)
    requires k.IsInteger()
    ensures VarValues(k, R.AllDenoted(k, numbers)) == ReaderFacts.ValuesOf(k, numbers)
  {
  }

  /** A plural read returns what that many scalar reads return, except that eight-byte numbers in the host's own order are
      read as a span, whose byte size may wrap around to one that fits. */
  lemma VarArrayIsScalars(r: R.State, k: Kind, count: nat)
    requires R.Ready(r) && k.IsInteger() && IsInt32(count)
    ensures var plural, scalars := R.VarArray(r, k, count), R.ReadMany(r, ReaderFacts.Copies(k, count));
      && (PluralValues(k, plural) == scalars.value
        <==> (k.Size() != 8 || MustSwap(r.hostLittle, r.bigEndian) || !ReaderFacts.WrapsInside(r, 8, count)))
      && (k.Size() != 8 || (plural.value.Some? && scalars.value.Some?) ==> plural.s == scalars.s)
  {
    hide R.ManyBits, R.ArrayBits, R.ReadMany, ReaderFacts.WrapsInside, R.AllDenoted;
    var g := if k.Size() == 8 then R.ArrayBits(r, 8, count) else R.ManyBits(r, k.Size(), count);
    if g.value.Some? { DenotedValues(k, g.value.value); }
    if k.Size() == 8 {
      ReaderFacts.BulkReadExact(r, k, count);
    } else {
      ReaderFacts.ScalarsAreBits(r, k, count);
    }
  }

  /** A plural read of a negative count throws without effect, unless eight-byte numbers in the host's own order have a byte
      size that wraps around to one that fits. */
  lemma NegativePlural(r: R.State, k: Kind, count: int)
    requires R.Ready(r) && k.IsInteger() && count < 0
    ensures R.VarArray(r, k, count) == R.Got(r, None) <==>
      k.Size() != 8 || MustSwap(r.hostLittle, r.bigEndian) || !ReaderFacts.SizeInside(r, 8, count)
  {
    hide R.AllDenoted, R.ManyBits, WrapInt32;
    ReaderFacts.NegativeCount(r, 8, count);
  }

  /** From an empty region, a plural read of `2^29` eight-byte numbers in the host's order succeeds. */
  lemma VarArrayWraps()
    ensures var r, count := ReaderAt(true, [], 0, false), 0x2000_0000;
      R.VarArray(r, Int64, count).value == Some([]) && R.ReadMany(r, ReaderFacts.Copies(Int64, count)).value == None
  {
    var r, count := ReaderAt(true, [], 0, false), 0x2000_0000;
    hide R.ManyBits, R.ReadMany, R.ArrayBits;
    ReaderFacts.ScalarsAreBits(r, Int64, count);
    ReaderFacts.EmptyReadWraps(8, count);
  }

  // ----- Terminated strings -----

  /** `WriteString` with a terminator, whose encoded units are all nonzero, is undone by the reader of that unit size. */
  lemma TerminatedRoundTrip(s: W.State, u: nat, payload: seq<Byte>, units: nat, singly: bool, readerLittle: bool)
    requires W.Ready(s) && s.sink.Memory? && |s.bytes| <= MAX_LENGTH && u > 0
    requires |payload| == u * units && ReaderFacts.NoZeroUnit(payload, u) && s.pos + |payload| + u <= |s.bytes|
    ensures var written := W.Emit(s, Writers.SingleBytes(payload + seq(u, _ => 0 as Byte)));
      var r := ReaderAt(readerLittle, written.s.bytes, s.pos, s.bigEndian);
      written.ok && R.Ready(r) && R.Terminated(r, u, singly) == R.Got(R.At(r, written.s.pos), Some(payload))
  {
    hide W.Emit, W.Splice, R.Terminated, Flatten, Writers.SingleBytes;
    var all := payload + seq(u, _ => 0 as Byte);
    SingleBytesFlatten(all);
    W.EmitIsPut(s, Writers.SingleBytes(all));
    SplicedSize(s.bytes, s.pos, all);
    var bytes := W.Splice(s.bytes, s.pos, all);
    SplicedBytes(s.bytes, s.pos, all);
    PayloadParts(bytes, s.pos, payload, seq(u, _ => 0 as Byte));
    ReaderFacts.ReadsPayload(ReaderAt(readerLittle, bytes, s.pos, s.bigEndian), u, singly, payload, units);
  }

  lemma SplicedSize(bytes: seq<Byte>, pos: int, bs: seq<Byte>)
    requires 0 <= pos && pos + |bs| <= |bytes|
    ensures |W.Splice(bytes, pos, bs)| == |bytes|
  {
  }

  lemma PayloadParts(bytes: seq<Byte>, pos: nat, payload: seq<Byte>, zeros: seq<Byte>)
    requires pos + |payload + zeros| <= |bytes| && bytes[pos..pos + |payload + zeros|] == payload + zeros
    ensures bytes[pos..pos + |payload|] == payload
    ensures forall i :: pos + |payload| <= i < pos + |payload| + |zeros| ==> bytes[i] == zeros[i - pos - |payload|]
  {
    var there := bytes[pos..pos + |payload + zeros|];
    assert bytes[pos..pos + |payload|] == there[..|payload|];
    forall i | pos + |payload| <= i < pos + |payload| + |zeros| ensures bytes[i] == zeros[i - pos - |payload|] {
      assert bytes[i] == there[i - pos];
    }
  }

  lemma {:induction false} SingleBytesFlatten(bs: seq<Byte>)
    ensures Flatten(Writers.SingleBytes(bs)) == bs
    decreases |bs|
  {
    if bs != [] {
      assert Writers.SingleBytes(bs)[1..] == Writers.SingleBytes(bs[1..]);
      SingleBytesFlatten(bs[1..]);
    }
  }

  // ----- Padding -----

  lemma PadLength(pos: nat, alignment: int)
    requires alignment > 0
    ensures |Writers.PadBytes(pos, alignment)| < alignment
    ensures (pos + |Writers.PadBytes(pos, alignment)|) % alignment == 0
  {
    var q := pos / alignment;
    assert pos == q * alignment + pos % alignment;
    assert (q + 1) * alignment == q * alignment + alignment;
    if pos % alignment > 0 {
      ModUnique(pos + (alignment - pos % alignment), alignment, q + 1, 0);
    }
  }

  /** A negative alignment pads nothing. */
  lemma NegativePad(pos: int, alignment: int)
    requires pos >= 0 && alignment < 0
    ensures Writers.PadBytes(pos, alignment) == []
  {
  }

  /** A successful `Pad` stops at the first multiple of the alignment at or after the cursor, writing only zeros. */
  lemma PadReachesMultiple(s: W.State, alignment: int)
    requires W.Ready(s) && alignment > 0
    ensures var bs := Writers.PadBytes(s.pos, alignment);
      && (forall i :: 0 <= i < |bs| ==> bs[i] == 0) && |bs| < alignment
      && (s.pos + |bs|) % alignment == 0
      && (W.Emit(s, Writers.SingleBytes(bs)).ok <==> W.Fits(s, |bs|))
      && (W.Emit(s, Writers.SingleBytes(bs)).ok ==> W.Emit(s, Writers.SingleBytes(bs)).s == W.Put(s, bs))
  {
    hide W.Emit, W.Put;
    PadLength(s.pos, alignment);
    var bs := Writers.PadBytes(s.pos, alignment);
    SingleBytesFlatten(bs);
    W.EmitIsPut(s, Writers.SingleBytes(bs));
  }
}
