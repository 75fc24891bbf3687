/** The reader over a span: a bounds-checked cursor in 32-bit arithmetic. */
module BinarySpanReaders {
  import opened FixedWidth
  import opened ByteOrder
  import opened TypedValues
  import ArrayHelper
  import R = ReaderMachine
  import ReaderFacts

  datatype SeekOrigin = Begin | Current | End

  datatype Op =
    | Seek(position: int) | SeekFrom(offset: int, origin: SeekOrigin) | Rewind(count: int) | Skip(count: int)
    | Align(alignment: int) | AlignFrom(position: int, alignment: int)
    | Read(size: nat) | ReadSpan(size: nat, count: int) | ReadBoolean | ReadBooleans(count: int)

  /** Where the cursor is after a call, and whether the call returned rather than threw. */
  datatype Outcome = Outcome(offset: int, ok: bool)

  /** Any 32-bit arguments; scalars of at most 16 bytes. */
  predicate ValidOp(op: Op) {
    match op
    case Seek(position) => IsInt32(position)
    case SeekFrom(offset, _) => IsInt32(offset)
    case Rewind(count) => IsInt32(count)
    case Skip(count) => IsInt32(count)
    case Align(alignment) => IsInt32(alignment)
    case AlignFrom(position, alignment) => IsInt32(position) && IsInt32(alignment)
    case Read(size) => size <= 16
    case ReadSpan(size, count) => size <= 16 && IsInt32(count)
    case ReadBoolean => true
    case ReadBooleans(count) => IsInt32(count)
  }

  /** The setter's one unsigned comparison. */
  function Set(length: nat, offset: int, value: int): Outcome {
    if WrapUInt32(value) > WrapUInt32(length) then Outcome(offset, false) else Outcome(value, true)
  }

  /** A span access at `position`: the wrapped end is compared, then the slice is checked. */
  function SpanRange(length: nat, position: int, size: nat, count: int): Option<nat> {
    var bytes := WrapInt32(size * count);
    if WrapInt32(position + bytes) > length then None
    else if 0 <= position && 0 <= bytes && position + bytes <= length then Some(bytes) else None
  }

  predicate IsBoolean(b: Byte) {
    b == 0 || b == 1
  }

  /** How many leading bytes are 0 or 1. */
  function BooleanPrefix(bytes: seq<Byte>): (n: nat)
    ensures n <= |bytes|
    ensures forall i :: 0 <= i < n ==> IsBoolean(bytes[i])
    ensures n < |bytes| ==> !IsBoolean(bytes[n])
  {
    if bytes == [] || !IsBoolean(bytes[0]) then 0 else 1 + BooleanPrefix(bytes[1..])
  }

  function Step(buffer: seq<Byte>, offset: int, op: Op): Outcome
    requires 0 <= offset <= |buffer|
  {
    var length := |buffer|;
    match op
    case Seek(position) => Set(length, offset, position)
    case SeekFrom(distance, origin) =>
      (match origin
       case Begin => Set(length, offset, distance)
       case Current => Set(length, offset, WrapInt32(offset + distance))
       case End => Set(length, offset, WrapInt32(length - distance)))
    case Rewind(count) => Set(length, offset, WrapInt32(offset - count))
    case Skip(count) => Set(length, offset, WrapInt32(offset + count))
    case Align(alignment) => if alignment < 1 then Outcome(offset, false) else AlignStep(length, offset, offset, alignment)
    case AlignFrom(position, alignment) =>
      if position < 1 || position > length || alignment < 1 then Outcome(offset, false)
      else AlignStep(length, offset, position, alignment)
    case Read(size) =>
      if WrapInt32(offset + size) > length then Outcome(offset, false) else Outcome(WrapInt32(offset + size), true)
    case ReadSpan(size, count) =>
      var n := SpanRange(length, offset, size, count);
      if n.None? then Outcome(offset, false) else Outcome(WrapInt32(offset + n.value), true)
    case ReadBoolean =>
      if offset == length then Outcome(offset, false) else Outcome(offset + 1, IsBoolean(buffer[offset]))
    case ReadBooleans(count) =>
      if count < 0 || offset + count > length then Outcome(offset, false)
      else
        var n := BooleanPrefix(buffer[offset..offset + count]);
        Outcome(offset + n, n == count)
  }

  /** Nothing moves when the position is already aligned; the sum is checked for overflow. */
  function AlignStep(length: nat, offset: int, position: int, alignment: int): Outcome
    requires alignment > 0
  {
    var remainder := position % alignment;
    if remainder == 0 then Outcome(offset, true)
    else
      var target := position + (alignment - remainder);
      if target > INT32_MAX || target > length then Outcome(offset, false) else Outcome(target, true)
  }

  // ----- Safety -----

  /** For spans short enough that a scalar cannot wrap, the cursor stays inside after every call, with any 32-bit
      arguments, whether the call returns or throws. */
  lemma StepSafe(buffer: seq<Byte>, offset: int, op: Op)
    requires |buffer| <= MAX_LENGTH && 0 <= offset <= |buffer| && ValidOp(op)
    ensures 0 <= Step(buffer, offset, op).offset <= |buffer|
    ensures !Step(buffer, offset, op).ok && !op.ReadBoolean? && !op.ReadBooleans? ==> Step(buffer, offset, op).offset == offset
  {
    hide WrapInt32, Set, SpanRange, BooleanPrefix, AlignStep;
    match op {
      case Seek(position) => SetSafe(|buffer|, offset, position);
      case SeekFrom(distance, _) =>
        SetSafe(|buffer|, offset, distance);
        SetSafe(|buffer|, offset, WrapInt32(offset + distance));
        SetSafe(|buffer|, offset, WrapInt32(|buffer| - distance));
      case Rewind(count) => SetSafe(|buffer|, offset, WrapInt32(offset - count));
      case Skip(count) => SetSafe(|buffer|, offset, WrapInt32(offset + count));
      case Align(alignment) => if alignment > 0 { AlignSafe(|buffer|, offset, offset, alignment); }
      case AlignFrom(position, alignment) =>
        if alignment > 0 && position > 0 { AlignSafe(|buffer|, offset, position, alignment); }
      case Read(_) =>
      case ReadSpan(size, count) => RangeSafe(|buffer|, offset, size, count);
      case ReadBoolean =>
      case ReadBooleans(_) =>
    }
  }

  lemma SetSafe(length: nat, offset: int, value: int)
    requires length <= INT32_MAX && 0 <= offset <= length && IsInt32(value)
    ensures 0 <= Set(length, offset, value).offset <= length
    ensures !Set(length, offset, value).ok ==> Set(length, offset, value).offset == offset
  {
    SetExact(length, offset, value);
  }

  lemma AlignSafe(length: nat, offset: int, position: int, alignment: int)
    requires 0 <= offset <= length && 0 <= position && alignment > 0
    ensures 0 <= AlignStep(length, offset, position, alignment).offset <= length
    ensures !AlignStep(length, offset, position, alignment).ok ==> AlignStep(length, offset, position, alignment).offset == offset
  {
    RemainderInside(position, alignment);
  }

  lemma RangeSafe(length: nat, position: int, size: nat, count: int)
    requires length <= MAX_LENGTH && 0 <= position
    ensures var n := SpanRange(length, position, size, count);
      n.Some? ==> position + n.value <= length && WrapInt32(position + n.value) == position + n.value
  {
    hide WrapInt32;
  }

  lemma RemainderInside(n: int, alignment: int)
    requires alignment > 0
    ensures 0 <= n % alignment < alignment
  {
  }

  function Run(buffer: seq<Byte>, offset: int, ops: seq<Op>): int
    requires |buffer| <= MAX_LENGTH && 0 <= offset <= |buffer| && forall i :: 0 <= i < |ops| ==> ValidOp(ops[i])
    decreases |ops|
  {
    if ops == [] then offset
    else
      StepSafe(buffer, offset, ops[0]);
      Run(buffer, Step(buffer, offset, ops[0]).offset, ops[1..])
  }

  /** So it stays inside over every run, calls that throw included. */
  lemma {:induction false} RunSafe(buffer: seq<Byte>, offset: int, ops: seq<Op>)
    requires |buffer| <= MAX_LENGTH && 0 <= offset <= |buffer| && forall i :: 0 <= i < |ops| ==> ValidOp(ops[i])
    ensures 0 <= Run(buffer, offset, ops) <= |buffer|
    decreases |ops|
  {
    hide Step;
    if ops != [] {
      StepSafe(buffer, offset, ops[0]);
      RunSafe(buffer, Step(buffer, offset, ops[0]).offset, ops[1..]);
    }
  }

  /** A scalar read from this cursor throws or ends inside. */
  predicate EndsInside(length: nat, offset: int, size: nat) {
    WrapInt32(offset + size) > length || WrapInt32(offset + size) >= 0
  }

  /** The length limit is needed: scalar reads of `size` bytes keep every cursor inside exactly for spans whose length
      plus `size` is still a 32-bit integer. */
  lemma LengthLimitExact(length: nat, size: nat)
    requires length <= INT32_MAX && 1 <= size <= 16
    ensures (forall offset :: 0 <= offset <= length ==> EndsInside(length, offset, size)) <==> length + size <= INT32_MAX
  {
    WrapOnce(length + size);
    assert EndsInside(length, length, size) <==> length + size <= INT32_MAX;
  }

  // ----- What the moves do -----

  /** The unsigned comparison accepts exactly the positions inside, however the 32-bit sum before it wrapped. */
  lemma SetExact(length: nat, offset: int, value: int)
    requires length <= INT32_MAX && IsInt32(value)
    ensures Set(length, offset, value) == if 0 <= value <= length then Outcome(value, true) else Outcome(offset, false)
  {
  }

  /** Every move goes to the place its name says exactly when that lies inside, and else leaves the cursor alone. */
  lemma MovesExact(buffer: seq<Byte>, offset: int, count: int)
    requires |buffer| <= INT32_MAX && 0 <= offset <= |buffer| && IsInt32(count)
    ensures Step(buffer, offset, Seek(count)) == Step(buffer, offset, SeekFrom(count, Begin)) ==
      if 0 <= count <= |buffer| then Outcome(count, true) else Outcome(offset, false)
    ensures Step(buffer, offset, SeekFrom(count, Current)) ==
      if 0 <= offset + count <= |buffer| then Outcome(offset + count, true) else Outcome(offset, false)
    ensures Step(buffer, offset, Skip(count)) ==
      if 0 <= offset + count <= |buffer| then Outcome(offset + count, true) else Outcome(offset, false)
    ensures Step(buffer, offset, Rewind(count)) ==
      if 0 <= offset - count <= |buffer| then Outcome(offset - count, true) else Outcome(offset, false)
    ensures Step(buffer, offset, SeekFrom(count, End)) ==
      if 0 <= |buffer| - count <= |buffer| then Outcome(|buffer| - count, true) else Outcome(offset, false)
  {
    StepIsSet(buffer, offset, count);
    hide WrapInt32, Set, Step;
    SumSet(|buffer|, offset, offset + count);
    SumSet(|buffer|, offset, offset - count);
    SumSet(|buffer|, offset, |buffer| - count);
    SetExact(|buffer|, offset, count);
  }

  lemma StepIsSet(buffer: seq<Byte>, offset: int, count: int)
    requires 0 <= offset <= |buffer|
    ensures Step(buffer, offset, Skip(count)) == Set(|buffer|, offset, WrapInt32(offset + count))
    ensures Step(buffer, offset, Rewind(count)) == Set(|buffer|, offset, WrapInt32(offset - count))
    ensures Step(buffer, offset, SeekFrom(count, End)) == Set(|buffer|, offset, WrapInt32(|buffer| - count))
    ensures Step(buffer, offset, SeekFrom(count, Current)) == Set(|buffer|, offset, WrapInt32(offset + count))
    ensures Step(buffer, offset, SeekFrom(count, Begin)) == Set(|buffer|, offset, count)
    ensures Step(buffer, offset, Seek(count)) == Set(|buffer|, offset, count)
  {
    hide WrapInt32, Set;
  }

  /** A span access of so many bytes succeeds exactly when the range lies inside, the byte count being a 32-bit product. */
  lemma RangeExact(length: nat, position: int, size: nat, count: int)
    requires length <= MAX_LENGTH && IsInt32(position)
    ensures var bytes := WrapInt32(size * count);
      SpanRange(length, position, size, count) ==
        if 0 <= position && 0 <= bytes && position + bytes <= length then Some(bytes) else None
  {
    var bytes := WrapInt32(size * count);
    WrapOnce(position + bytes);
    hide WrapInt32;
  }

  /** Reads move past the bytes they take exactly when these lie inside, and else leave the cursor alone. */
  lemma ReadsExact(buffer: seq<Byte>, offset: int, size: nat, count: int)
    requires |buffer| <= MAX_LENGTH && 0 <= offset <= |buffer| && size <= 16 && IsInt32(count)
    ensures Step(buffer, offset, Read(size)) ==
      if offset + size <= |buffer| then Outcome(offset + size, true) else Outcome(offset, false)
    ensures var bytes := WrapInt32(size * count);
      Step(buffer, offset, ReadSpan(size, count)) ==
        if 0 <= bytes && offset + bytes <= |buffer| then Outcome(offset + bytes, true) else Outcome(offset, false)
    ensures Step(buffer, offset, ReadBoolean) ==
      if offset < |buffer| then Outcome(offset + 1, buffer[offset] == 0 || buffer[offset] == 1) else Outcome(offset, false)
    ensures count < 0 || offset + count > |buffer| ==> Step(buffer, offset, ReadBooleans(count)) == Outcome(offset, false)
  {
    RangeExact(|buffer|, offset, size, count);
    var bytes := WrapInt32(size * count);
    WrapOnce(offset + size);
    if bytes >= 0 { WrapOnce(offset + bytes); }
    hide WrapInt32, SpanRange;
  }

  /** A sum that wraps once is refused as the true sum would be. */
  lemma SumSet(length: nat, offset: int, sum: int)
    requires length <= INT32_MAX && -0x8000_0000 <= sum < 0x1_0000_0000
    ensures Set(length, offset, WrapInt32(sum)) == if 0 <= sum <= length then Outcome(sum, true) else Outcome(offset, false)
  {
    WrapOnce(sum);
    hide WrapInt32;
    SetExact(length, offset, WrapInt32(sum));
    hide Set;
  }

  /** A skip that succeeds is undone by a rewind of the same count, of either sign. */
  lemma RewindUndoesSkip(buffer: seq<Byte>, offset: int, count: int)
    requires |buffer| <= INT32_MAX && 0 <= offset <= |buffer| && IsInt32(count)
    requires Step(buffer, offset, Skip(count)).ok
    ensures Step(buffer, offset + count, Rewind(count)) == Outcome(offset, true)
  {
    MovesExact(buffer, offset, count);
    MovesExact(buffer, offset + count, count);
  }

  /** `m` is the first multiple of `alignment` at or after `position`. */
  ghost predicate FirstMultiple(m: int, position: int, alignment: int)
    requires alignment > 0
  {
    position <= m < position + alignment && m % alignment == 0
  }

  lemma FirstMultipleIs(position: int, alignment: int, m: int)
    requires alignment > 0
    ensures FirstMultiple(m, position, alignment) <==>
      m == if position % alignment == 0 then position else position + (alignment - position % alignment)
  {
    var q, r := position / alignment, position % alignment;
    assert position == q * alignment + r;
    var n := if r == 0 then position else position + (alignment - r);
    assert (q + 1) * alignment == q * alignment + alignment;
    ModUnique(n, alignment, if r == 0 then q else q + 1, 0);
    if FirstMultiple(m, position, alignment) && m != n {
      var p := m / alignment;
      assert m == p * alignment;
      var k := p - if r == 0 then q else q + 1;
      assert k * alignment == p * alignment - n;
      if k >= 1 { ProductAtLeast(k, alignment); } else { ProductAtLeast(-k, alignment); }
    }
  }

  /** `Align` goes to the first multiple at or after the cursor, and throws exactly when it lies outside. */
  lemma AlignExact(buffer: seq<Byte>, offset: int, alignment: int)
    requires |buffer| <= INT32_MAX && 0 <= offset <= |buffer| && IsInt32(alignment) && alignment > 0
    ensures Step(buffer, offset, Align(alignment)).ok <==> exists m :: FirstMultiple(m, offset, alignment) && m <= |buffer|
    ensures Step(buffer, offset, Align(alignment)).ok ==>
      FirstMultiple(Step(buffer, offset, Align(alignment)).offset, offset, alignment)
  {
    var m := if offset % alignment == 0 then offset else offset + (alignment - offset % alignment);
    FirstMultipleIs(offset, alignment, m);
    forall n | FirstMultiple(n, offset, alignment) ensures n == m {
      FirstMultipleIs(offset, alignment, n);
    }
  }

  /** `AlignFrom` goes to the first multiple at or after the given position, except that an aligned position leaves the
      cursor where it was. */
  lemma AlignFromExact(buffer: seq<Byte>, offset: int, position: int, alignment: int)
    requires |buffer| <= INT32_MAX && 0 <= offset <= |buffer| && IsInt32(alignment)
    requires Step(buffer, offset, AlignFrom(position, alignment)).ok
    ensures FirstMultiple(Step(buffer, offset, AlignFrom(position, alignment)).offset, position, alignment)
       <==> (position % alignment != 0 || offset == position)
  {
    FirstMultipleIs(position, alignment, Step(buffer, offset, AlignFrom(position, alignment)).offset);
  }

  /** Aligning refuses an alignment that is not positive; aligning from a position also one that is not inside, counted from
      1, and one whose first multiple lies outside. A refused call leaves the cursor alone. */
  lemma AlignRefuses(buffer: seq<Byte>, offset: int, position: int, alignment: int)
    requires |buffer| <= INT32_MAX && 0 <= offset <= |buffer| && IsInt32(position) && IsInt32(alignment)
    ensures alignment < 1 ==> Step(buffer, offset, Align(alignment)) == Outcome(offset, false)
    ensures Step(buffer, offset, AlignFrom(position, alignment)).ok <==>
      1 <= position <= |buffer| && alignment >= 1 && exists m :: FirstMultiple(m, position, alignment) && m <= |buffer|
    ensures !Step(buffer, offset, AlignFrom(position, alignment)).ok ==>
      Step(buffer, offset, AlignFrom(position, alignment)).offset == offset
  {
    if alignment >= 1 {
      var m := if position % alignment == 0 then position else position + (alignment - position % alignment);
      FirstMultipleIs(position, alignment, m);
      forall n | FirstMultiple(n, position, alignment) ensures n == m {
        FirstMultipleIs(position, alignment, n);
      }
    }
  }

  /** Aligning from position 4, already a multiple of 4, leaves a cursor at 1 where it was. */
  lemma AlignFromStays(buffer: seq<Byte>)
    requires 4 <= |buffer| <= INT32_MAX
    ensures Step(buffer, 1, AlignFrom(4, 4)) == Outcome(1, true) && !FirstMultiple(1, 4, 4)
  {
  }

  // ----- Positioned scalars -----

  /** The only check of `Get<T>(position)` for a type of `size` bytes. */
  predicate GetAllowed(length: nat, position: int, size: nat) {
    WrapInt32(position + size) <= length
  }

  predicate RangeInside(length: nat, position: int, size: nat) {
    0 <= position && position + size <= length
  }

  datatype Fetched = Refused | Inside(image: seq<Byte>) | Outside

  /** A `Get` that does not throw reads inside the span exactly when its position is not negative and its end is a 32-bit
      integer; and one whose bytes lie inside never throws. */
  lemma GetExact(length: nat, position: int, size: nat)
    requires length <= INT32_MAX && IsInt32(position) && size <= 16
    ensures GetAllowed(length, position, size) ==>
      (RangeInside(length, position, size) <==> 0 <= position && position + size <= INT32_MAX)
    ensures RangeInside(length, position, size) ==> GetAllowed(length, position, size)
  {
    WrapOnce(position + size);
  }

  /** A position just before the span is not refused. */
  lemma GetBeforeSpan(length: nat)
    ensures GetAllowed(length, -4, 4) && !RangeInside(length, -4, 4)
  {
  }

  // ----- Endian-aware spans -----

  /** The numbers of a span as the caller gets them: the host's, or a swapped copy. */
  function SpanNumbers(hostLittle: bool, bigEndian: bool, w: nat, bs: seq<Byte>): seq<nat>
    requires w > 0
  {
    var numbers := R.HostNumbers(hostLittle, w, bs);
    if MustSwap(hostLittle, bigEndian) then ArrayHelper.AllSwapped(w, numbers) else numbers
  }

  /** On every host, a span of numbers, swapped or not, is the canonical decoding number by number, which is what scalar
      reads return one after the other. */
  lemma SpanIsScalars(hostLittle: bool, bigEndian: bool, w: nat, count: nat, bs: seq<Byte>)
    requires w > 0 && |bs| == w * count && |bs| <= MAX_LENGTH
    ensures SpanNumbers(hostLittle, bigEndian, w, bs) == DecodeNumbers(bigEndian, w, count, bs)
    ensures var r := R.State(hostLittle, bs, 0, bigEndian, []);
      R.ManyBits(r, w, count).value == Some(SpanNumbers(hostLittle, bigEndian, w, bs))
  {
    hide R.HostNumbers, DecodeNumbers, R.ManyBits;
    ReaderFacts.HostNumbersDecode(hostLittle, w, count, bs);
    ReaderFacts.HostNumbersDecode(!hostLittle, w, count, bs);
    ArrayHelper.SwappedNumbers(hostLittle, w, bs);
    var r := R.State(hostLittle, bs, 0, bigEndian, []);
    ReaderFacts.ManyBitsDecode(r, w, count);
    assert ReaderFacts.Slice(r, w * count) == bs;
  }

  /** Booleans read at once are the bytes compared with one; they throw exactly at the first byte that is neither. */
  lemma BooleansExact(buffer: seq<Byte>, offset: int, count: nat)
    requires 0 <= offset && offset + count <= |buffer|
    ensures Step(buffer, offset, ReadBooleans(count)).ok <==>
      forall i :: offset <= i < offset + count ==> buffer[i] == 0 || buffer[i] == 1
    ensures Step(buffer, offset, ReadBooleans(count)).ok ==> Step(buffer, offset, ReadBooleans(count)).offset == offset + count
    ensures !Step(buffer, offset, ReadBooleans(count)).ok ==>
      var at := Step(buffer, offset, ReadBooleans(count)).offset;
      && offset <= at < offset + count && buffer[at] != 0 && buffer[at] != 1
      && forall i :: offset <= i < at ==> buffer[i] == 0 || buffer[i] == 1
  {
    var bytes := buffer[offset..offset + count];
    assert forall i :: 0 <= i < count ==> bytes[i] == buffer[offset + i];
    assert forall i :: offset <= i < offset + count ==> buffer[i] == bytes[i - offset];
    var n := BooleanPrefix(bytes);
  }

  class BinarySpanReader {
    const hostLittle: bool
    const buffer: seq<Byte>
    var bufferOffset: int
    var bigEndian: bool

    ghost predicate Valid()
      reads this
    {
      |buffer| <= MAX_LENGTH && 0 <= bufferOffset <= |buffer|
    }

    /** The call moved the cursor, and returned or threw, as the step says. */
    twostate predicate Did(op: Op, ok: bool)
      requires old(Valid())
      reads this
    {
      Valid() && bigEndian == old(bigEndian) && Outcome(bufferOffset, ok) == Step(buffer, old(bufferOffset), op)
    }

    constructor (buffer: seq<Byte>, hostLittle: bool)
      requires |buffer| <= MAX_LENGTH
      ensures Valid() && this.buffer == buffer && bufferOffset == 0 && bigEndian == !hostLittle
    {
      this.buffer := buffer;
      this.hostLittle := hostLittle;
      bufferOffset := 0;
      bigEndian := !hostLittle;
    }

    method SetPosition(value: int) returns (ok: bool)
      requires Valid() && IsInt32(value)
      modifies this`bufferOffset
      ensures Did(Op.Seek(value), ok)
    {
      if WrapUInt32(value) > WrapUInt32(|buffer|) {
        return false;
      }
      bufferOffset := value;
      return true;
    }

    method Rewind(count: int) returns (ok: bool)
      requires Valid() && IsInt32(count)
      modifies this`bufferOffset
      ensures Did(Op.Rewind(count), ok)
    {
      ok := SetPosition(WrapInt32(bufferOffset - count));
    }

    method Skip(count: int) returns (ok: bool)
      requires Valid() && IsInt32(count)
      modifies this`bufferOffset
      ensures Did(Op.Skip(count), ok)
    {
      ok := SetPosition(WrapInt32(bufferOffset + count));
    }

    method Seek(offset: int, origin: SeekOrigin) returns (ok: bool)
      requires Valid() && IsInt32(offset)
      modifies this`bufferOffset
      ensures Did(Op.SeekFrom(offset, origin), ok)
    {
      match origin {
        case Begin => ok := SetPosition(offset);
        case Current => ok := SetPosition(WrapInt32(bufferOffset + offset));
        case End => ok := SetPosition(WrapInt32(|buffer| - offset));
      }
    }

    method Align(alignment: int) returns (ok: bool)
      requires Valid() && IsInt32(alignment)
      modifies this`bufferOffset
      ensures Did(Op.Align(alignment), ok)
    {
      if alignment < 1 {
        return false;
      }
      var remainder := bufferOffset % alignment;
      if remainder > 0 {
        var finalPosition := bufferOffset + (alignment - remainder);
        if !IsInt32(finalPosition) {
          return false;
        }
        if finalPosition > |buffer| {
          return false;
        }
        bufferOffset := finalPosition;
      }
      return true;
    }

    method AlignFrom(position: int, alignment: int) returns (ok: bool)
      requires Valid() && IsInt32(position) && IsInt32(alignment)
      modifies this`bufferOffset
      ensures Did(Op.AlignFrom(position, alignment), ok)
    {
      if position < 1 || position > |buffer| {
        return false;
      }
      if alignment < 1 {
        return false;
      }
      var remainder := position % alignment;
      if remainder > 0 {
        var finalPosition := position + (alignment - remainder);
        if !IsInt32(finalPosition) {
          return false;
        }
        if finalPosition > |buffer| {
          return false;
        }
        bufferOffset := finalPosition;
      }
      return true;
    }

    /** `Read<T>` of `size` bytes. */
    method Read(size: nat) returns (image: Option<seq<Byte>>)
      requires Valid() && size <= 16
      modifies this`bufferOffset
      ensures Did(Op.Read(size), image.Some?)
      ensures image.Some? ==> image.value == buffer[old(bufferOffset)..old(bufferOffset) + size]
    {
      var endPosition := WrapInt32(bufferOffset + size);
      if endPosition > |buffer| {
        return None;
      }
      image := Some(buffer[bufferOffset..bufferOffset + size]);
      bufferOffset := endPosition;
    }

    method ReadSpan(size: nat, count: int) returns (image: Option<seq<Byte>>)
      requires Valid() && size <= 16 && IsInt32(count)
      modifies this`bufferOffset
      ensures Did(Op.ReadSpan(size, count), image.Some?)
      ensures image.Some? ==> image.value == buffer[old(bufferOffset)..bufferOffset]
    {
      var length := WrapInt32(size * count);
      var endPosition := WrapInt32(bufferOffset + length);
      if endPosition > |buffer| {
        return None;
      }
      // The slice throws unless the range lies inside the span.
      if length < 0 || bufferOffset + length > |buffer| {
        return None;
      }
      image := Some(buffer[bufferOffset..bufferOffset + length]);
      bufferOffset := endPosition;
    }

    /** `Get<T>` of `size` bytes: refused, the bytes of the span, or whatever lies outside it. */
    method Get(position: int, size: nat) returns (r: Fetched)
      requires Valid() && IsInt32(position) && size <= 16
      ensures r.Refused? <==> !GetAllowed(|buffer|, position, size)
      ensures r.Inside? <==> RangeInside(|buffer|, position, size)
      ensures r.Inside? ==> r.image == buffer[position..position + size]
    {
      GetExact(|buffer|, position, size);
      var endPosition := WrapInt32(position + size);
      if endPosition > |buffer| {
        return Refused;
      }
      r := if 0 <= position && position + size <= |buffer| then Inside(buffer[position..position + size]) else Outside;
    }

    /** `GetSpan<T>`: nothing moves, whatever the position. */
    method GetSpan(position: int, size: nat, count: int) returns (image: Option<seq<Byte>>)
      requires Valid() && size <= 16 && IsInt32(position) && IsInt32(count)
      ensures image == match SpanRange(|buffer|, position, size, count)
        case None => None
        case Some(n) => Some(buffer[position..position + n])
    {
      var length := WrapInt32(size * count);
      var endPosition := WrapInt32(position + length);
      if endPosition > |buffer| {
        return None;
      }
      // The slice throws unless the range lies inside the span.
      if position < 0 || length < 0 || position + length > |buffer| {
        return None;
      }
      return Some(buffer[position..position + length]);
    }

    /** `Peek<T>` of `size` bytes. */
    method Peek(size: nat) returns (image: Option<seq<Byte>>)
      requires Valid() && size <= 16
      ensures image.Some? <==> Step(buffer, bufferOffset, Op.Read(size)).ok
      ensures image.Some? ==> image.value == buffer[bufferOffset..bufferOffset + size]
    {
      var endPosition := WrapInt32(bufferOffset + size);
      if endPosition > |buffer| {
        return None;
      }
      return Some(buffer[bufferOffset..bufferOffset + size]);
    }

    /** `ReadInt16` to `ReadDouble`, as bit patterns. */
    method ReadNumber(w: nat) returns (value: Option<nat>)
      requires Valid() && w <= 16
      modifies this`bufferOffset
      ensures Did(Op.Read(w), value.Some?)
      ensures value.Some? ==> value.value == FromCanonical(bigEndian, buffer[old(bufferOffset)..old(bufferOffset) + w])
    {
      var image := Read(w);
      if image.None? {
        return None;
      }
      LoadIsHostIndependent(hostLittle, bigEndian, image.value);
      var raw := HostValue(hostLittle, image.value);
      return Some(if bigEndian != !hostLittle then ReverseEndianness(w, raw) else raw);
    }

    /** `ReadInt16Span` to `ReadDoubleSpan`. */
    method ReadNumberSpan(w: nat, count: int) returns (numbers: Option<seq<nat>>)
      requires Valid() && 0 < w <= 16 && IsInt32(count)
      modifies this`bufferOffset
      ensures Did(Op.ReadSpan(w, count), numbers.Some?)
      ensures numbers.Some? ==> numbers.value == SpanNumbers(hostLittle, bigEndian, w, buffer[old(bufferOffset)..bufferOffset])
    {
      var image := ReadSpan(w, count);
      if image.None? {
        return None;
      }
      var host := R.HostNumbers(hostLittle, w, image.value);
      if bigEndian != !hostLittle {
        var copy := ArrayHelper.GetEndianReversedCopy(w, host);
        return Some(copy);
      }
      return Some(host);
    }

    method ReadBoolean() returns (value: Option<bool>)
      requires Valid()
      modifies this`bufferOffset
      ensures Did(Op.ReadBoolean, value.Some?)
      ensures value.Some? ==> value.value == (buffer[old(bufferOffset)] == 1)
    {
      var image := Read(1);
      if image.None? {
        return None;
      }
      var b := image.value[0];
      if b == 1 {
        return Some(true);
      }
      if b == 0 {
        return Some(false);
      }
      return None;
    }

    /** The cursor moves with every Boolean, so a bad byte leaves it there. */
    method ReadBooleans(count: int) returns (values: Option<seq<bool>>)
      requires Valid() && IsInt32(count)
      modifies this`bufferOffset
      ensures Did(Op.ReadBooleans(count), values.Some?)
      ensures values.Some? ==> |values.value| == count
      ensures values.Some? ==> forall i :: 0 <= i < count ==> values.value[i] == (buffer[old(bufferOffset) + i] == 1)
    {
      if count < 0 {
        return None;
      }
      OneByteRange(|buffer|, bufferOffset, count);
      NoRoom(buffer, bufferOffset, count);
      hide SpanRange, WrapInt32, Step;
      ghost var start := bufferOffset;
      var filled := new bool[count](_ => false);
      var span := GetSpan(bufferOffset, 1, count);
      if span.None? {
        return None;
      }
      for i := 0 to count
        invariant Valid() && bigEndian == old(bigEndian) && bufferOffset == start + i
        invariant forall j :: start <= j < start + i ==> IsBoolean(buffer[j])
        invariant forall j :: 0 <= j < i ==> filled[j] == (buffer[start + j] == 1)
      {
        var value := span.value[i];
        assert value == buffer[start + i];
        if value != 1 && value != 0 {
          StopsAt(buffer, start, count, i);
          return None;
        }
        filled[i] := value == 1;
        bufferOffset := bufferOffset + 1;
      }
      StopsAt(buffer, start, count, count);
      return Some(filled[..]);
    }

    /** `GetBooleans`, and `PeekBooleans` at the cursor. */
    method GetBooleans(position: int, count: int) returns (values: Option<seq<bool>>)
      requires Valid() && IsInt32(position) && IsInt32(count)
      ensures values.Some? <==>
        && count >= 0 && 0 <= position && position + count <= |buffer|
        && forall i :: position <= i < position + count ==> IsBoolean(buffer[i])
      ensures values.Some? ==> |values.value| == count
      ensures values.Some? ==> forall i :: 0 <= i < count ==> values.value[i] == (buffer[position + i] == 1)
    {
      if count < 0 {
        return None;
      }
      var filled := new bool[count](_ => false);
      var span := GetSpan(position, 1, count);
      if span.None? {
        return None;
      }
      for i := 0 to count
        invariant forall j :: 0 <= j < i ==> IsBoolean(span.value[j]) && filled[j] == (span.value[j] == 1)
      {
        var value := span.value[i];
        assert value == buffer[position + i];
        if value != 1 && value != 0 {
          return None;
        }
        filled[i] := value == 1;
      }
      return Some(filled[..]);
    }
  }

  lemma OneByteRange(length: nat, position: int, count: nat)
    requires length <= INT32_MAX && 0 <= position <= length && IsInt32(count)
    ensures SpanRange(length, position, 1, count) == if position + count <= length then Some(count) else None
  {
    WrapOnce(position + count);
  }

  lemma NoRoom(buffer: seq<Byte>, offset: int, count: nat)
    requires 0 <= offset <= |buffer|
    ensures offset + count > |buffer| ==> Step(buffer, offset, ReadBooleans(count)) == Outcome(offset, false)
  {
  }

  /** The first `n` bytes are 0 or 1, and not the next, if it is asked for. */
  lemma StopsAt(buffer: seq<Byte>, offset: int, count: nat, n: nat)
    requires 0 <= offset && offset + count <= |buffer| && n <= count
    requires forall j :: offset <= j < offset + n ==> IsBoolean(buffer[j])
    requires n < count ==> !IsBoolean(buffer[offset + n])
    ensures Step(buffer, offset, ReadBooleans(count)) == Outcome(offset + n, n == count)
  {
    var bytes := buffer[offset..offset + count];
    forall j | 0 <= j < n ensures IsBoolean(bytes[j]) {
      assert bytes[j] == buffer[offset + j];
    }
    PrefixIs(bytes, n);
  }

  lemma {:induction false} PrefixIs(bytes: seq<Byte>, n: nat)
    requires n <= |bytes| && (forall i :: 0 <= i < n ==> IsBoolean(bytes[i])) && (n < |bytes| ==> !IsBoolean(bytes[n]))
    ensures BooleanPrefix(bytes) == n
  {
    if n > 0 { PrefixIs(bytes[1..], n - 1); }
  }
}
