/** The reader decodes canonically, its bulk paths agree with its scalar ones, and its strings end where they should. */
module ReaderFacts {
  import opened FixedWidth
  import opened ByteOrder
  import opened TypedValues
  import opened ReaderMachine

  function Slice(s: State, n: nat): (bs: seq<Byte>)
    requires Ready(s) && s.pos + n <= |s.bytes|
    ensures |bs| == n
  {
    s.bytes[s.pos..s.pos + n]
  }

  // ----- Numbers in a row -----

  lemma {:induction false} DecodeSnoc(bigEndian: bool, w: nat, n: nat, bs: seq<Byte>, last: seq<Byte>)
    requires |bs| == w * n && |last| == w && |bs + last| == w * (n + 1)
    ensures DecodeNumbers(bigEndian, w, n + 1, bs + last)
         == DecodeNumbers(bigEndian, w, n, bs) + [FromCanonical(bigEndian, last)]
  {
    hide FromCanonical;
    if n == 0 {
      assert bs == [] && (bs + last)[..w] == last;
    } else {
      RowSize(w, n - 1);
      assert (bs + last)[..w] == bs[..w] && (bs + last)[w..] == bs[w..] + last;
      DecodeSnoc(bigEndian, w, n - 1, bs[w..], last);
    }
  }

  lemma RowSize(w: nat, n: nat)
    ensures w * (n + 1) == w * n + w
  {
  }

  lemma BitsDecode(s: State, w: nat)
    requires Ready(s)
    ensures Bits(s, w) == if s.pos + w > |s.bytes| then Got(s, None)
      else Got(At(s, s.pos + w), Some(FromCanonical(s.bigEndian, Slice(s, w))))
  {
    if s.pos + w <= |s.bytes| {
      LoadIsHostIndependent(s.hostLittle, s.bigEndian, Slice(s, w));
    }
  }

  lemma SliceSplit(s: State, m: nat, n: nat)
    requires Ready(s) && s.pos + m + n <= |s.bytes|
    ensures Slice(s, m + n) == Slice(s, m) + Slice(At(s, s.pos + m), n)
  {
  }

  lemma ManyBitsNone(s: State, w: nat)
    requires Ready(s)
    ensures ManyBits(s, w, 0) == Got(At(s, s.pos), Some(DecodeNumbers(s.bigEndian, w, 0, Slice(s, 0))))
  {
  }

  /** One more number, once the first `n` are known. */
  lemma ManyBitsNext(s: State, w: nat, n: nat, size: nat)
    requires Ready(s) && size == w * n && size + w == w * (n + 1)
    requires ManyBits(s, w, n) == if s.pos + size > |s.bytes| then Got(ManyBits(s, w, n).s, None)
      else Got(At(s, s.pos + size), Some(DecodeNumbers(s.bigEndian, w, n, Slice(s, size))))
    ensures ManyBits(s, w, n + 1) == if s.pos + size + w > |s.bytes| then Got(ManyBits(s, w, n + 1).s, None)
      else Got(At(s, s.pos + size + w), Some(DecodeNumbers(s.bigEndian, w, n + 1, Slice(s, size + w))))
  {
    hide DecodeNumbers, Bits, FromCanonical, Slice;
    if s.pos + size <= |s.bytes| {
      BitsDecode(At(s, s.pos + size), w);
      if s.pos + size + w <= |s.bytes| {
        SliceSplit(s, size, w);
        DecodeSnoc(s.bigEndian, w, n, Slice(s, size), Slice(At(s, s.pos + size), w));
      }
    }
  }

  /** Reading `n` numbers in a row succeeds exactly when they all lie inside, on every host. */
  lemma {:induction false} ManyBitsDecode(s: State, w: nat, n: nat)
    requires Ready(s)
    ensures ManyBits(s, w, n) == if s.pos + w * n > |s.bytes| then Got(ManyBits(s, w, n).s, None)
      else Got(At(s, s.pos + w * n), Some(DecodeNumbers(s.bigEndian, w, n, Slice(s, w * n))))
  {
    hide ManyBits, DecodeNumbers, Slice;
    if n == 0 {
      ManyBitsNone(s, w);
      assert w * n == 0;
    } else {
      ManyBitsDecode(s, w, n - 1);
      RowSize(w, n - 1);
      ManyBitsNext(s, w, n - 1, w * (n - 1));
    }
  }

  lemma {:induction false} HostNumbersDecode(hostLittle: bool, w: nat, n: nat, bs: seq<Byte>)
    requires w > 0 && |bs| == w * n
    ensures HostNumbers(hostLittle, w, bs) == DecodeNumbers(!hostLittle, w, n, bs)
  {
    hide HostValue, FromCanonical;
    if n > 0 {
      RowSize(w, n - 1);
      HostNumbersDecode(hostLittle, w, n - 1, bs[w..]);
      SameOrder(hostLittle, bs[..w]);
    }
  }

  lemma SameOrder(hostLittle: bool, bs: seq<Byte>)
    ensures HostValue(hostLittle, bs) == FromCanonical(!hostLittle, bs)
  {
  }

  // ----- Scalars -----

  lemma OneByteDecode(bigEndian: bool, b: Byte)
    ensures FromCanonical(bigEndian, [b]) == b
  {
    assert FromLittle([b][1..]) == 0 && FromBig([b][..0]) == 0;
  }

  /** Every typed read, on every host, decodes the bytes at the cursor canonically and moves past them;
      it throws exactly when they do not all lie inside, or are not a Boolean where one is wanted. */
  lemma ReadIsDecode(s: State, k: Kind)
    requires Ready(s)
    ensures ReadOne(s, k).value == if s.pos + k.Size() <= |s.bytes| then Decode(s.bigEndian, k, Slice(s, k.Size())) else None
    ensures ReadOne(s, k).value.Some? ==> ReadOne(s, k).s == At(s, s.pos + k.Size())
  {
    if k.IsVector() {
      ReadVectorIsDecode(s, k);
    } else {
      ReadScalarIsDecode(s, k);
    }
  }

  lemma ReadScalarIsDecode(s: State, k: Kind)
    requires Ready(s) && !k.IsVector()
    ensures ReadOne(s, k).value == if s.pos + k.Size() <= |s.bytes| then Decode(s.bigEndian, k, Slice(s, k.Size())) else None
    ensures ReadOne(s, k).value.Some? ==> ReadOne(s, k).s == At(s, s.pos + k.Size())
  {
    hide LoadedValue, FromCanonical, Denoted;
    if s.pos + k.Size() <= |s.bytes| {
      var bs := Slice(s, k.Size());
      LoadIsHostIndependent(s.hostLittle, s.bigEndian, bs);
      if k.Size() == 1 {
        assert bs == [bs[0]];
        OneByteDecode(s.bigEndian, bs[0]);
      }
    }
  }

  lemma ReadVectorIsDecode(s: State, k: Kind)
    requires Ready(s) && k.IsVector()
    ensures ReadOne(s, k).value == if s.pos + k.Size() <= |s.bytes| then Decode(s.bigEndian, k, Slice(s, k.Size())) else None
    ensures ReadOne(s, k).value.Some? ==> ReadOne(s, k).s == At(s, s.pos + k.Size())
  {
    hide HostNumbers, DecodeNumbers, ManyBits;
    ManyBitsDecode(s, 4, k.Components());
    if s.pos + k.Size() <= |s.bytes| && !MustSwap(s.hostLittle, s.bigEndian) {
      HostNumbersDecode(s.hostLittle, 4, k.Components(), Slice(s, k.Size()));
    }
  }

  // ----- Reads that throw -----

  lemma QuotientBetween(n: nat, w: nat, q: nat)
    requires w > 0 && w * q <= n < w * q + w
    ensures n / w == q
  {
    assert w * q == q * w;
    QuotientUnique(n, w, q, n - w * q);
  }

  /** Reading numbers in a row stops after the last that lies inside. */
  lemma {:induction false} ManyBitsStops(s: State, w: nat, n: nat)
    requires Ready(s) && w > 0 && ManyBits(s, w, n).value.None?
    ensures ManyBits(s, w, n).s == At(s, s.pos + w * ((|s.bytes| - s.pos) / w))
    decreases n
  {
    hide DecodeNumbers, Bits;
    var init := ManyBits(s, w, n - 1);
    if init.value.None? {
      ManyBitsStops(s, w, n - 1);
    } else {
      ManyBitsDecode(s, w, n - 1);
      BitsDecode(init.s, w);
      hide ManyBits;
      QuotientBetween(|s.bytes| - s.pos, w, n - 1);
    }
  }

  /** Where a typed read that throws leaves the cursor: after a byte that is no Boolean, after the last whole component of a
      vector read by components, and else where it was. */
  lemma ReadThrows(s: State, k: Kind)
    requires Ready(s) && ReadOne(s, k).value.None?
    ensures ReadOne(s, k).s ==
      if k.Boolean? && s.pos < |s.bytes| then At(s, s.pos + 1)
      else if k.IsVector() && MustSwap(s.hostLittle, s.bigEndian) then At(s, s.pos + 4 * ((|s.bytes| - s.pos) / 4))
      else s
  {
    hide ManyBits, LoadedValue, HostNumbers, Denoted;
    if k.IsVector() && MustSwap(s.hostLittle, s.bigEndian) { ManyBitsStops(s, 4, k.Components()); }
  }

  // ----- Positioned reads -----

  /** Setting the position succeeds exactly when the low 32 bits of the value are at most the length, and then goes there:
      to the value itself exactly when it is an unsigned 32-bit number. */
  lemma PositionedExact(s: State, target: int)
    requires Ready(s)
    ensures Positioned(s, target).value.Some? <==> target % 0x1_0000_0000 <= |s.bytes|
    ensures Positioned(s, target).s == At(s, if target % 0x1_0000_0000 <= |s.bytes| then target % 0x1_0000_0000 else s.pos)
    ensures Positioned(s, target).value.Some? ==>
      (Positioned(s, target).s == At(s, target) <==> 0 <= target < 0x1_0000_0000)
  {
  }

  /** A position of `2^32` is taken for the beginning. */
  lemma PositionWraps(s: State)
    requires Ready(s)
    ensures Positioned(s, 0x1_0000_0000) == Got(At(s, 0), Some(()))
  {
  }

  /** `Get` decodes the bytes at the target canonically, as far as the position setter understands it, and leaves cursor and
      saved positions alone; it throws exactly when they do not all lie inside, or are not a Boolean where one is wanted. */
  lemma GetExact(s: State, k: Kind, target: int)
    requires Ready(s)
    ensures var at := target % 0x1_0000_0000;
      ValueAt(s, k, target).value ==
        if at + k.Size() <= |s.bytes| then Decode(s.bigEndian, k, s.bytes[at..at + k.Size()]) else None
    ensures ValueAt(s, k, target).value.Some? ==> ValueAt(s, k, target).s == s
  {
    hide ReadOne, Decode;
    var at := target % 0x1_0000_0000;
    if at <= |s.bytes| { ReadIsDecode(At(s, at), k); }
  }

  /** `Peek` decodes the bytes at the cursor canonically, and leaves cursor and saved positions alone. */
  lemma PeekExact(s: State, k: Kind)
    requires Ready(s)
    ensures Peeked(s, k).value == if s.pos + k.Size() <= |s.bytes| then Decode(s.bigEndian, k, Slice(s, k.Size())) else None
    ensures Peeked(s, k).value.Some? ==> Peeked(s, k).s == s
  {
    hide ReadOne, Decode;
    ReadIsDecode(s, k);
  }

  // ----- Bulk reads -----

  /** The wrapped byte size of a span that is too long still passes the checks. */
  predicate WrapsInside(s: State, size: nat, count: int) {
    size * count > INT32_MAX && 0 <= WrapInt32(size * count) && s.pos + WrapInt32(size * count) <= |s.bytes|
  }

  lemma SpanExact(s: State, size: nat, count: nat)
    requires Ready(s) && size * count <= INT32_MAX
    ensures SpanBytes(s, size, count) == Raw(s, size * count)
  {
  }

  /** A span read hands out the bytes it moves past, exactly when they lie inside, the byte count being a 32-bit product. */
  lemma SpanReadExact(s: State, size: nat, count: int)
    requires Ready(s)
    ensures var n := WrapInt32(size * count);
      SpanBytes(s, size, count) ==
        if 0 <= n && s.pos + n <= |s.bytes| then Got(At(s, s.pos + n), Some(s.bytes[s.pos..s.pos + n])) else Got(s, None)
  {
    var n := WrapInt32(size * count);
    WrapOnce(s.pos + n);
    hide WrapInt32;
  }

  lemma SpanTooLong(s: State, size: nat, count: nat)
    requires Ready(s) && size * count > INT32_MAX
    ensures SpanBytes(s, size, count).value.Some? <==> WrapsInside(s, size, count)
  {
  }

  /** An array read and `count` reads of `ReadEndian` return the same and leave the same cursor, unless the host needs no
      swap and the 32-bit byte size wraps around to one that fits: then the array read wrongly succeeds. */
  lemma BulkBitsExact(s: State, w: nat, count: nat)
    requires Ready(s) && 0 < w && IsInt32(count)
    ensures ArrayBits(s, w, count).value == ManyBits(s, w, count).value
       <==> (MustSwap(s.hostLittle, s.bigEndian) || !WrapsInside(s, w, count))
    ensures ArrayBits(s, w, count).value == ManyBits(s, w, count).value && ManyBits(s, w, count).value.Some?
      ==> ArrayBits(s, w, count) == ManyBits(s, w, count)
    ensures ArrayBits(s, w, count).value != ManyBits(s, w, count).value ==>
      ArrayBits(s, w, count).value.Some? && ManyBits(s, w, count).value.None?
  {
    hide DecodeNumbers, HostNumbers, ManyBits, SpanBytes, WrapInt32;
    ManyBitsDecode(s, w, count);
    if !MustSwap(s.hostLittle, s.bigEndian) {
      if w * count <= INT32_MAX {
        SpanExact(s, w, count);
        if s.pos + w * count <= |s.bytes| {
          HostNumbersDecode(s.hostLittle, w, count, Slice(s, w * count));
        }
      } else {
        SpanTooLong(s, w, count);
      }
    }
  }

  /** `count` times the same kind. */
  function Copies(k: Kind, count: nat): (kinds: seq<Kind>)
    ensures |kinds| == count && forall i :: 0 <= i < count ==> kinds[i] == k
  {
    seq(count, _ => k)
  }

  /** The value of a kind that a bit pattern denotes. */
  function ValueOf(k: Kind, bits: nat): Value {
    if k.IsInteger() then Integer(k, Denoted(k.IsSigned(), k.Size(), bits)) else Float(k, bits)
  }

  function ValuesOf(k: Kind, numbers: seq<nat>): (vs: seq<Value>)
    ensures |vs| == |numbers| && forall i :: 0 <= i < |numbers| ==> vs[i] == ValueOf(k, numbers[i])
  {
    seq(|numbers|, i requires 0 <= i < |numbers| => ValueOf(k, numbers[i]))
  }

  /** What a reader of numbers returns, as values of a kind. */
  function AsValues(k: Kind, g: Got<seq<nat>>): Got<seq<Value>> {
    Got(g.s, if g.value.None? then None else Some(ValuesOf(k, g.value.value)))
  }

  lemma {:induction false} ReadManySnoc(s: State, kinds: seq<Kind>, k: Kind)
    requires Ready(s)
    ensures ReadMany(s, kinds + [k]) ==
      var init := ReadMany(s, kinds);
      if init.value.None? then init
      else
        var last := ReadOne(init.s, k);
        Got(last.s, if last.value.None? then None else Some(init.value.value + [last.value.value]))
    decreases |kinds|
  {
    hide ReadOne;
    if kinds == [] {
      assert ([] + [k])[1..] == [];
      var last := ReadOne(s, k);
      if last.value.Some? { assert [last.value.value] + [] == [] + [last.value.value]; }
    } else {
      assert (kinds + [k])[1..] == kinds[1..] + [k] && (kinds + [k])[0] == kinds[0];
      var first := ReadOne(s, kinds[0]);
      if first.value.Some? {
        ReadManySnoc(first.s, kinds[1..], k);
        var rest := ReadMany(first.s, kinds[1..]);
        if rest.value.Some? {
          var last := ReadOne(rest.s, k);
          if last.value.Some? {
            assert [first.value.value] + (rest.value.value + [last.value.value])
                == [first.value.value] + rest.value.value + [last.value.value];
          }
        }
      }
    }
  }

  lemma SliceOne(s: State)
    requires Ready(s) && s.pos + 1 <= |s.bytes|
    ensures Slice(s, 1) == [s.bytes[s.pos]]
  {
    assert Slice(s, 1)[0] == s.bytes[s.pos];
  }

  /** A scalar reader reads the bits of its kind; the one-byte readers, which never swap, too. */
  lemma ReadOneIsBits(s: State, k: Kind)
    requires Ready(s) && (k.IsInteger() || k.IsFloat())
    ensures var bits := Bits(s, k.Size());
      ReadOne(s, k) == Got(bits.s, if bits.value.None? then None else Some(ValueOf(k, bits.value.value)))
  {
    hide LoadedValue, FromCanonical, Denoted;
    if k.Size() == 1 && s.pos + 1 <= |s.bytes| {
      BitsDecode(s, 1);
      SliceOne(s);
      OneByteDecode(s.bigEndian, s.bytes[s.pos]);
    }
  }

  /** The typed scalar reads of one kind are reads of its bits, failures included. */
  lemma {:induction false} ScalarsAreBits(s: State, k: Kind, count: nat)
    requires Ready(s) && (k.IsInteger() || k.IsFloat())
    ensures ReadMany(s, Copies(k, count)) == AsValues(k, ManyBits(s, k.Size(), count))
    decreases count
  {
    hide ReadOne, Bits, ValueOf;
    if count > 0 {
      ScalarsAreBits(s, k, count - 1);
      assert Copies(k, count) == Copies(k, count - 1) + [k];
      ReadManySnoc(s, Copies(k, count - 1), k);
      hide ReadMany;
      var init := ManyBits(s, k.Size(), count - 1);
      if init.value.Some? {
        ReadOneIsBits(init.s, k);
        var last := Bits(init.s, k.Size());
        if last.value.Some? {
          assert ValuesOf(k, init.value.value + [last.value.value])
              == ValuesOf(k, init.value.value) + [ValueOf(k, last.value.value)];
        }
      }
    }
  }

  /** An array reader and `count` scalar readers of its kind return the same exactly when bytes are swapped or the 32-bit
      byte size does not wrap around to one that fits; a read that succeeds both ways leaves the same cursor. */
  lemma BulkReadExact(s: State, k: Kind, count: nat)
    requires Ready(s) && (k.IsInteger() || k.IsFloat()) && IsInt32(count)
    ensures var bulk, scalars := AsValues(k, ArrayBits(s, k.Size(), count)), ReadMany(s, Copies(k, count));
      && (bulk.value == scalars.value <==> (MustSwap(s.hostLittle, s.bigEndian) || !WrapsInside(s, k.Size(), count)))
      && (bulk.value.Some? && scalars.value.Some? ==> bulk == scalars)
  {
    hide ManyBits, ArrayBits, ReadMany, WrapsInside;
    ScalarsAreBits(s, k, count);
    BulkBitsExact(s, k.Size(), count);
  }

  /** The one-byte array readers take a span in either order, and always agree with the scalar readers. */
  lemma ByteReadExact(s: State, k: Kind, count: nat)
    requires Ready(s) && k.IsInteger() && k.Size() == 1 && IsInt32(count)
    ensures var bytes, scalars := SpanBytes(s, 1, count), ReadMany(s, Copies(k, count));
      && (bytes.value.Some? <==> scalars.value.Some?)
      && (bytes.value.Some? ==> Got(bytes.s, Some(ValuesOf(k, bytes.value.value))) == scalars)
  {
    hide ReadMany, ManyBits, SpanBytes;
    ScalarsAreBits(s, k, count);
    ManyBitsDecode(s, 1, count);
    SpanExact(s, 1, count);
    if s.pos + count <= |s.bytes| { BytesDecode(s.bigEndian, Slice(s, count)); }
  }

  lemma {:induction false} BytesDecode(bigEndian: bool, bs: seq<Byte>)
    ensures DecodeNumbers(bigEndian, 1, |bs|, bs) == bs
  {
    hide FromCanonical;
    if bs != [] {
      OneByteDecode(bigEndian, bs[0]);
      assert bs[..1] == [bs[0]];
      BytesDecode(bigEndian, bs[1..]);
      assert [bs[0]] + bs[1..] == bs;
    }
  }

  /** From an empty region, a read of `2^32` bytes in the host's order succeeds. */
  lemma EmptyReadWraps(w: nat, count: nat)
    requires w > 0 && w * count == 0x1_0000_0000
    ensures var s := State(true, [], 0, false, []);
      WrapsInside(s, w, count) && ArrayBits(s, w, count).value == Some([]) && ManyBits(s, w, count).value.None?
  {
    ManyBitsDecode(State(true, [], 0, false, []), w, count);
    hide ManyBits;
  }

  /** From an empty region, a read of `2^30` integers in the host's order succeeds. */
  lemma BulkReadWraps()
    ensures var s, count := State(true, [], 0, false, []), 0x4000_0000;
      && WrapsInside(s, 4, count) && ArrayBits(s, 4, count).value == Some([]) && ReadMany(s, Copies(Int32, count)).value == None
  {
    var s, count := State(true, [], 0, false, []), 0x4000_0000;
    hide ManyBits, ReadMany, ArrayBits;
    ScalarsAreBits(s, Int32, count);
    EmptyReadWraps(4, count);
  }

  /** The 32-bit byte size of a span lies inside. */
  predicate SizeInside(s: State, size: nat, count: int) {
    0 <= WrapInt32(size * count) && s.pos + WrapInt32(size * count) <= |s.bytes|
  }

  /** An array read of a negative count throws without effect exactly when bytes are swapped or the byte size does not wrap
      around to one that fits. */
  lemma NegativeCount(s: State, w: nat, count: int)
    requires Ready(s) && 0 < w && count < 0
    ensures ArrayBits(s, w, count) == Got(s, None) <==> MustSwap(s.hostLittle, s.bigEndian) || !SizeInside(s, w, count)
  {
    SpanReadExact(s, w, count);
    hide SpanBytes, WrapInt32, HostNumbers, ManyBits;
  }

  // ----- Vectors -----

  /** `count` vectors read one by one. */
  function ManyVectors(s: State, k: Kind, count: nat): (g: Got<seq<seq<nat>>>)
    requires Ready(s) && k.IsVector()
    ensures Ready(g.s) && g.s == At(s, g.s.pos)
    decreases count
  {
    if count == 0 then Got(s, Some([]))
    else
      var first := ReadOne(s, k);
      if first.value.None? then Got(first.s, None)
      else
        var rest := ManyVectors(first.s, k, count - 1);
        Got(rest.s, if rest.value.None? then None else Some([first.value.value.components] + rest.value.value))
  }

  lemma {:induction false} DecodeSplit(bigEndian: bool, w: nat, m: nat, n: nat, bs: seq<Byte>)
    requires |bs| == w * (m + n) && w * m <= |bs| && |bs[w * m..]| == w * n
    ensures DecodeNumbers(bigEndian, w, m + n, bs)
         == DecodeNumbers(bigEndian, w, m, bs[..w * m]) + DecodeNumbers(bigEndian, w, n, bs[w * m..])
  {
    hide FromCanonical;
    if m == 0 {
      assert bs[w * m..] == bs;
    } else {
      RowSize(w, m - 1);
      RowSize(w, m - 1 + n);
      var tail := bs[w..];
      assert tail[w * (m - 1)..] == bs[w * m..];
      assert bs[..w * m][w..] == tail[..w * (m - 1)];
      assert bs[..w * m][..w] == bs[..w];
      DecodeSplit(bigEndian, w, m - 1, n, tail);
    }
  }

  /** Reading vectors one by one gives the numbers in a row, regrouped. */
  lemma {:induction false} ManyVectorsDecode(s: State, k: Kind, count: nat)
    requires Ready(s) && k.IsVector()
    ensures k.Size() * count == 4 * (k.Components() * count)
    ensures ManyVectors(s, k, count).value.Some? <==> s.pos + k.Size() * count <= |s.bytes|
    ensures s.pos + k.Size() * count <= |s.bytes| ==>
      ManyVectors(s, k, count) == Got(At(s, s.pos + k.Size() * count),
        Some(Grouped(k.Components(), DecodeNumbers(s.bigEndian, 4, k.Components() * count, Slice(s, k.Size() * count)))))
    decreases count
  {
    hide FromCanonical, ReadOne, Slice, Grouped;
    var n, size := k.Components(), k.Size();
    if count == 0 {
      assert At(s, s.pos) == s;
      NoGroups(n);
      return;
    }
    hide DecodeNumbers;
    RowSize(size, count - 1);
    RowSize(n, count - 1);
    ReadIsDecode(s, k);
    if s.pos + size <= |s.bytes| {
      var next, rest := At(s, s.pos + size), size * (count - 1);
      ManyVectorsDecode(next, k, count - 1);
      if s.pos + size + rest <= |s.bytes| {
        SliceSplit(s, size, rest);
        FirstGroup(s.bigEndian, n, n * (count - 1), Slice(s, size), Slice(next, rest));
      }
    }
  }

  lemma NoGroups(n: nat)
    requires n > 0
    ensures Grouped(n, []) == []
  {
  }

  lemma FirstGroup(bigEndian: bool, n: nat, m: nat, first: seq<Byte>, rest: seq<Byte>)
    requires n > 0 && |first| == 4 * n && |rest| == 4 * m
    ensures Grouped(n, DecodeNumbers(bigEndian, 4, n + m, first + rest))
         == [DecodeNumbers(bigEndian, 4, n, first)] + Grouped(n, DecodeNumbers(bigEndian, 4, m, rest))
  {
    hide DecodeNumbers;
    assert (first + rest)[..4 * n] == first && (first + rest)[4 * n..] == rest;
    DecodeSplit(bigEndian, 4, n, m, first + rest);
    var c := DecodeNumbers(bigEndian, 4, n + m, first + rest);
    assert c[..n] == DecodeNumbers(bigEndian, 4, n, first) && c[n..] == DecodeNumbers(bigEndian, 4, m, rest);
  }

  /** A vector array read of a negative count throws without effect exactly when the size it computes does not wrap around to
      one that fits. */
  lemma NegativeVectors(s: State, k: Kind, count: int)
    requires Ready(s) && k.IsVector() && count < 0
    ensures MustSwap(s.hostLittle, s.bigEndian) ==>
      (VectorArray(s, k, count).value.None? <==>
        WrapInt32(count * k.Components()) < 0 || s.pos + 4 * WrapInt32(count * k.Components()) > |s.bytes|)
    ensures MustSwap(s.hostLittle, s.bigEndian) && WrapInt32(count * k.Components()) < 0 ==>
      VectorArray(s, k, count) == Got(s, None)
    ensures !MustSwap(s.hostLittle, s.bigEndian) ==>
      (VectorArray(s, k, count) == Got(s, None) <==> !SizeInside(s, k.Size(), count))
  {
    SpanReadExact(s, k.Size(), count);
    var components := WrapInt32(count * k.Components());
    if components >= 0 { ManyBitsDecode(s, 4, components); }
    hide SpanBytes, WrapInt32, HostNumbers, ManyBits, Grouped;
  }

  /** The sizes the vector array readers compute wrap around to ones that fit: the number of components where bytes are
      swapped, the byte size where they are not. */
  predicate VectorsWrapInside(s: State, k: Kind, count: nat)
    requires k.IsVector()
  {
    if MustSwap(s.hostLittle, s.bigEndian) then
      var components := k.Components() * count;
      components > INT32_MAX && 0 <= WrapInt32(components) && s.pos + 4 * WrapInt32(components) <= |s.bytes|
    else WrapsInside(s, k.Size(), count)
  }

  /** The vector array readers and `count` scalar vector reads return the same exactly when the 32-bit sizes they compute
      do not wrap around to ones that fit; a read that succeeds both ways leaves the same cursor. */
  lemma VectorReadExact(s: State, k: Kind, count: nat)
    requires Ready(s) && k.IsVector() && IsInt32(count)
    ensures VectorArray(s, k, count).value == ManyVectors(s, k, count).value <==> !VectorsWrapInside(s, k, count)
    ensures ManyVectors(s, k, count).value.Some? ==> VectorArray(s, k, count) == ManyVectors(s, k, count)
  {
    if k.Size() * count <= INT32_MAX {
      ShortVectorRead(s, k, count);
    } else {
      hide DecodeNumbers, HostNumbers, ManyBits, SpanBytes, Grouped, ManyVectors, WrapInt32;
      var n := k.Components();
      assert n * count == count * n;
      ManyVectorsDecode(s, k, count);
      if MustSwap(s.hostLittle, s.bigEndian) {
        WrapIfTooLong(n * count);
        if WrapInt32(n * count) >= 0 {
          ManyBitsDecode(s, 4, WrapInt32(n * count));
        }
      } else {
        SpanTooLong(s, k.Size(), count);
      }
    }
  }

  /** From an empty region, a read of `2^30` vectors of four succeeds where bytes are swapped, and of `2^29` vectors of two
      where they are not. */
  lemma VectorReadWraps()
    ensures var s, count := State(true, [], 0, true, []), 0x4000_0000;
      && VectorsWrapInside(s, Vector4, count)
      && VectorArray(s, Vector4, count).value == Some([]) && ManyVectors(s, Vector4, count).value == None
    ensures var s, count := State(true, [], 0, false, []), 0x2000_0000;
      && VectorsWrapInside(s, Vector2, count)
      && VectorArray(s, Vector2, count).value == Some([]) && ManyVectors(s, Vector2, count).value == None
  {
    hide ManyVectors;
    ManyVectorsDecode(State(true, [], 0, true, []), Vector4, 0x4000_0000);
    ManyVectorsDecode(State(true, [], 0, false, []), Vector2, 0x2000_0000);
  }

  lemma WrapIfTooLong(x: nat)
    ensures x <= INT32_MAX ==> WrapInt32(x) == x
  {
  }

  lemma ShortVectorRead(s: State, k: Kind, count: nat)
    requires Ready(s) && k.IsVector() && k.Size() * count <= INT32_MAX
    ensures VectorArray(s, k, count).value == ManyVectors(s, k, count).value && !VectorsWrapInside(s, k, count)
    ensures ManyVectors(s, k, count).value.Some? ==> VectorArray(s, k, count) == ManyVectors(s, k, count)
  {
    hide DecodeNumbers, HostNumbers, ManyBits, SpanBytes, Grouped, ManyVectors;
    var n := k.Components();
    assert k.Size() * count == 4 * (n * count) && count * n == n * count;
    ManyVectorsDecode(s, k, count);
    ManyBitsDecode(s, 4, n * count);
    if !MustSwap(s.hostLittle, s.bigEndian) {
      SpanExact(s, k.Size(), count);
      if s.pos + k.Size() * count <= |s.bytes| {
        HostNumbersDecode(s.hostLittle, 4, n * count, Slice(s, k.Size() * count));
      }
    }
  }

  // ----- Terminated strings -----

  /** The unit `k` units after the cursor is the first zero unit. */
  ghost predicate FirstZero(s: State, u: nat, k: nat) {
    && ZeroUnit(s.bytes, s.pos + u * k, u)
    && forall j: nat :: j < k ==> !ZeroUnit(s.bytes, s.pos + u * j, u)
  }

  lemma FirstZeroNext(s: State, u: nat, k: nat)
    requires Ready(s) && u > 0 && s.pos + u <= |s.bytes| && !ZeroUnit(s.bytes, s.pos, u)
    ensures FirstZero(s, u, k + 1) <==> FirstZero(At(s, s.pos + u), u, k)
  {
    hide ZeroUnit;
    var next := At(s, s.pos + u);
    assert u * (k + 1) == u + u * k;
    if FirstZero(next, u, k) {
      forall j: nat | j < k + 1 ensures !ZeroUnit(s.bytes, s.pos + u * j, u) {
        if j > 0 {
          assert u * j == u + u * (j - 1);
          assert !ZeroUnit(next.bytes, next.pos + u * (j - 1), u);
        } else {
          assert u * j == 0;
        }
      }
    }
    if FirstZero(s, u, k + 1) {
      forall j: nat | j < k ensures !ZeroUnit(next.bytes, next.pos + u * j, u) {
        assert u * (j + 1) == u + u * j;
        assert !ZeroUnit(s.bytes, s.pos + u * (j + 1), u);
      }
    }
  }

  lemma NotFirst(s: State, u: nat)
    requires Ready(s) && !ZeroUnit(s.bytes, s.pos, u)
    ensures !FirstZero(s, u, 0)
  {
    assert u * 0 == 0;
  }

  /** A terminated read succeeds exactly when some aligned unit inside is all zero; it then returns exactly the
      units before the first such unit and stops just after it, whichever way the units are fetched. */
  lemma {:induction false} TerminatedExact(s: State, u: nat, singly: bool, k: nat)
    requires Ready(s) && u > 0
    ensures FirstZero(s, u, k) ==>
      s.pos + u * (k + 1) <= |s.bytes| &&
      Terminated(s, u, singly) == Got(At(s, s.pos + u * (k + 1)), Some(s.bytes[s.pos..s.pos + u * k]))
    ensures Terminated(s, u, singly).value.Some? ==> exists j: nat :: FirstZero(s, u, j)
    decreases |s.bytes| - s.pos
  {
    hide FirstZero, Terminated;
    if s.pos + u > |s.bytes| {
      NoRoomNoZero(s, u, k);
      NoRoomFails(s, u, singly);
      return;
    }
    if ZeroUnit(s.bytes, s.pos, u) {
      EndsHere(s, u, singly, k);
      return;
    }
    TerminatedNext(s, u, singly);
    var next := At(s, s.pos + u);
    NotFirst(s, u);
    hide ZeroUnit;
    TerminatedExact(next, u, singly, if k > 0 then k - 1 else 0);
    if k > 0 {
      FirstZeroNext(s, u, k - 1);
      UnitsSplit(s, u, k);
    }
    if Terminated(s, u, singly).value.Some? {
      var j: nat :| FirstZero(next, u, j);
      FirstZeroNext(s, u, j);
    }
  }

  lemma EndsHere(s: State, u: nat, singly: bool, k: nat)
    requires Ready(s) && u > 0 && s.pos + u <= |s.bytes| && ZeroUnit(s.bytes, s.pos, u)
    ensures FirstZero(s, u, k) ==>
      s.pos + u * (k + 1) <= |s.bytes| &&
      Terminated(s, u, singly) == Got(At(s, s.pos + u * (k + 1)), Some(s.bytes[s.pos..s.pos + u * k]))
    ensures FirstZero(s, u, 0)
  {
    TerminatedNext(s, u, singly);
    ZeroHere(s, u, k);
    hide FirstZero, Terminated, ZeroUnit;
    if k == 0 {
      assert s.bytes[s.pos..s.pos + u * k] == [];
    }
  }

  lemma UnitsSplit(s: State, u: nat, k: nat)
    requires Ready(s) && k > 0
    ensures u * k == u + u * (k - 1) && u * (k + 1) == u + u * k
    ensures s.pos + u * k <= |s.bytes| ==>
      s.bytes[s.pos..s.pos + u * k] == s.bytes[s.pos..s.pos + u] + s.bytes[s.pos + u..s.pos + u + u * (k - 1)]
  {
    assert u * k == u + u * (k - 1) && u * (k + 1) == u + u * k;
    assert u * (k - 1) >= 0;
    UnitThenRest(s.bytes, s.pos, u, u * (k - 1));
  }

  lemma UnitThenRest(bytes: seq<Byte>, at: int, u: nat, rest: nat)
    requires 0 <= at
    ensures at + u + rest <= |bytes| ==> bytes[at..at + (u + rest)] == bytes[at..at + u] + bytes[at + u..at + u + rest]
  {
  }

  lemma NoRoomFails(s: State, u: nat, singly: bool)
    requires Ready(s) && s.pos + u > |s.bytes|
    ensures Terminated(s, u, singly).value.None?
  {
  }

  lemma TerminatedNext(s: State, u: nat, singly: bool)
    requires Ready(s) && u > 0 && s.pos + u <= |s.bytes|
    ensures var next := Terminated(At(s, s.pos + u), u, singly);
      Terminated(s, u, singly) ==
        if ZeroUnit(s.bytes, s.pos, u) then Got(At(s, s.pos + u), Some([]))
        else Got(next.s, if next.value.None? then None else Some(s.bytes[s.pos..s.pos + u] + next.value.value))
  {
  }

  lemma NoRoomNoZero(s: State, u: nat, k: nat)
    requires Ready(s) && s.pos + u > |s.bytes|
    ensures !FirstZero(s, u, k)
  {
    assert u * k >= 0;
  }

  lemma ZeroHere(s: State, u: nat, k: nat)
    requires Ready(s) && u > 0 && ZeroUnit(s.bytes, s.pos, u)
    ensures FirstZero(s, u, 0)
    ensures FirstZero(s, u, k) ==> k == 0
    ensures k == 0 ==> u * k == 0 && u * (k + 1) == u
  {
    assert u * 0 == 0;
    assert k > 0 && FirstZero(s, u, k) ==> !ZeroUnit(s.bytes, s.pos + u * 0, u);
  }

  /** In plain bytes: where the unit at `u * k` after the cursor is all zeros, and every earlier one has a byte that is not, the
      bytes before it are returned and the cursor stops just after it. */
  lemma TerminatedAt(s: State, u: nat, singly: bool, k: nat)
    requires Ready(s) && u > 0 && s.pos + u * (k + 1) <= |s.bytes|
    requires forall i :: s.pos + u * k <= i < s.pos + u * (k + 1) ==> s.bytes[i] == 0
    requires forall j: nat :: j < k ==> exists i :: s.pos + u * j <= i < s.pos + u * j + u && i < |s.bytes| && s.bytes[i] != 0
    ensures s.pos <= s.pos + u * k <= |s.bytes|
    ensures Terminated(s, u, singly) == Got(At(s, s.pos + u * (k + 1)), Some(s.bytes[s.pos..s.pos + u * k]))
  {
    assert u * (k + 1) == u * k + u && u * k >= 0;
    forall j: nat | j < k ensures !ZeroUnit(s.bytes, s.pos + u * j, u) {
      var i :| s.pos + u * j <= i < s.pos + u * j + u && i < |s.bytes| && s.bytes[i] != 0;
    }
    assert FirstZero(s, u, k);
    TerminatedExact(s, u, singly, k);
  }

  /** A terminated read that meets no zero unit takes every byte when it takes them one by one, and stops before the last
      partial unit when it takes whole units. Units without bytes give an empty string. */
  lemma {:induction false} TerminatedRunsOut(s: State, u: nat, singly: bool)
    requires Ready(s)
    ensures u == 0 ==> Terminated(s, u, singly) == Got(s, Some([]))
    ensures u > 0 && Terminated(s, u, singly).value.None? ==>
      Terminated(s, u, singly).s == At(s, if singly then |s.bytes| else s.pos + u * ((|s.bytes| - s.pos) / u))
    decreases |s.bytes| - s.pos
  {
    if u == 0 {
      NoUnits(s, singly);
    } else if s.pos + u > |s.bytes| {
      LeftOver(s, u, singly);
    } else {
      TerminatedNext(s, u, singly);
      hide Terminated;
      if !ZeroUnit(s.bytes, s.pos, u) {
        TerminatedRunsOut(At(s, s.pos + u), u, singly);
        OneUnitLess(|s.bytes| - s.pos, u);
      }
    }
  }

  lemma NoUnits(s: State, singly: bool)
    requires Ready(s)
    ensures Terminated(s, 0, singly) == Got(s, Some([]))
  {
  }

  lemma LeftOver(s: State, u: nat, singly: bool)
    requires Ready(s) && u > 0 && s.pos + u > |s.bytes|
    ensures Terminated(s, u, singly) == Got(At(s, if singly then |s.bytes| else s.pos), None)
    ensures u * ((|s.bytes| - s.pos) / u) == 0
  {
    QuotientUnique(|s.bytes| - s.pos, u, 0, |s.bytes| - s.pos);
  }

  lemma OneUnitLess(left: nat, u: nat)
    requires 0 < u <= left
    ensures u * (left / u) == u + u * ((left - u) / u)
  {
    var q := (left - u) / u;
    assert left - u == q * u + (left - u) % u;
    assert u * (q + 1) == u * q + u && u * q == q * u;
    QuotientBetween(left, u, q + 1);
  }

  /** The single-byte readers and `ReadTerminatedStringBytes` agree: one succeeds exactly when the other does,
      with the same bytes and the same cursor. */
  lemma {:induction false} TerminatedAgree(s: State, u: nat)
    requires Ready(s) && u > 0
    ensures Terminated(s, u, true).value == Terminated(s, u, false).value
    ensures Terminated(s, u, true).value.Some? ==> Terminated(s, u, true) == Terminated(s, u, false)
    decreases |s.bytes| - s.pos
  {
    if s.pos + u <= |s.bytes| && !ZeroUnit(s.bytes, s.pos, u) {
      TerminatedAgree(At(s, s.pos + u), u);
    }
  }

  /** No unit of the payload is all zero. */
  ghost predicate NoZeroUnit(payload: seq<Byte>, u: nat) {
    forall j: nat :: u * (j + 1) <= |payload| ==> !ZeroUnit(payload, u * j, u)
  }

  /** A payload of nonzero units followed by a zero unit is read back whole. */
  lemma ReadsPayload(s: State, u: nat, singly: bool, payload: seq<Byte>, units: nat)
    requires Ready(s) && u > 0 && |payload| == u * units && NoZeroUnit(payload, u)
    requires s.pos + |payload| + u <= |s.bytes|
    requires s.bytes[s.pos..s.pos + |payload|] == payload
    requires forall i :: s.pos + |payload| <= i < s.pos + |payload| + u ==> s.bytes[i] == 0
    ensures Terminated(s, u, singly) == Got(At(s, s.pos + |payload| + u), Some(payload))
  {
    PayloadUnits(s, u, payload, units);
    assert u * (units + 1) == u * units + u;
    hide Terminated, ZeroUnit;
    assert FirstZero(s, u, units);
    TerminatedExact(s, u, singly, units);
  }

  lemma PayloadUnits(s: State, u: nat, payload: seq<Byte>, units: nat)
    requires Ready(s) && u > 0 && |payload| == u * units && NoZeroUnit(payload, u)
    requires s.pos + |payload| + u <= |s.bytes|
    requires s.bytes[s.pos..s.pos + |payload|] == payload
    requires forall i :: s.pos + |payload| <= i < s.pos + |payload| + u ==> s.bytes[i] == 0
    ensures ZeroUnit(s.bytes, s.pos + u * units, u)
    ensures forall j: nat :: j < units ==> !ZeroUnit(s.bytes, s.pos + u * j, u)
  {
    forall j: nat | j < units ensures !ZeroUnit(s.bytes, s.pos + u * j, u) {
      UnitInside(u, j, units);
      assert !ZeroUnit(payload, u * j, u);
      var i :| u * j <= i < u * j + u && payload[i] != 0;
      assert s.bytes[s.pos..s.pos + |payload|][i] == s.bytes[s.pos + i];
    }
  }

  lemma UnitInside(u: nat, j: nat, units: nat)
    requires j < units
    ensures u * (j + 1) <= u * units && u * (j + 1) == u * j + u
  {
    var rest := units - (j + 1);
    assert units == (j + 1) + rest;
    assert u * ((j + 1) + rest) == u * (j + 1) + u * rest;
    assert u * rest >= 0;
  }
}
