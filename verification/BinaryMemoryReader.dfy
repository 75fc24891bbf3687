/** The reader over a region of memory. */
module BinaryMemoryReaders {
  import opened FixedWidth
  import opened ByteOrder
  import opened TypedValues
  import opened ReaderMachine
  import BinaryMemoryWriters

  class BinaryMemoryReader {
    /** `BitConverter.IsLittleEndian` of the machine. */
    const hostLittle: bool
    const memory: array<Byte>
    var position: int
    var bigEndian: bool
    var variableValueSize: int
    var steps: seq<int>

    ghost predicate Valid()
      reads this, memory
    {
      Ready(View())
    }

    ghost function View(): State
      reads this, memory
    {
      State(hostLittle, memory[..], position, bigEndian, steps)
    }

    constructor (memory: array<Byte>, bigEndian: bool, hostLittle: bool)
      requires memory.Length <= MAX_LENGTH
      ensures Valid() && this.memory == memory
      ensures View() == State(hostLittle, memory[..], 0, bigEndian, [])
    {
      this.memory := memory;
      this.bigEndian := bigEndian;
      this.hostLittle := hostLittle;
      position := 0;
      variableValueSize := 0;
      steps := [];
    }

    // ----- Cursor -----

    method SetPosition(value: int) returns (ok: bool)
      requires Valid() && IsInt64(value)
      modifies this`position
      ensures Valid() && View() == Positioned(old(View()), value).s && ok == Positioned(old(View()), value).value.Some?
    {
      LowHalf(value, memory.Length);
      hide WrapUInt32, WrapInt32;
      if WrapUInt32(value) > WrapUInt32(memory.Length) {
        return false;
      }
      position := WrapInt32(value);
      return true;
    }

    method StepIn(target: int) returns (ok: bool)
      requires Valid() && IsInt64(target)
      modifies this`position, this`steps
      ensures Valid()
      ensures View() == Positioned(old(View()).(steps := old(steps) + [old(position)]), target).s
      ensures ok == Positioned(old(View()), target).value.Some?
    {
      steps := steps + [position];
      ok := SetPosition(target);
    }

    method StepOut() returns (ok: bool)
      requires Valid()
      modifies this`position, this`steps
      ensures Valid() && (ok <==> old(steps) != [])
      ensures View() == if !ok then old(View())
        else old(View()).(steps := old(steps)[..|old(steps)| - 1], pos := old(steps)[|old(steps)| - 1])
    {
      if |steps| < 1 {
        return false;
      }
      position, steps := steps[|steps| - 1], steps[..|steps| - 1];
      return true;
    }

    // ----- Scalars -----

    method Read(size: nat) returns (image: Option<seq<Byte>>)
      requires Valid() && size <= 16
      modifies this`position
      ensures Valid() && Got(View(), image) == Raw(old(View()), size)
    {
      var endPosition := WrapInt32(position + size);
      if endPosition > memory.Length {
        return None;
      }
      image := Some(memory[position..position + size]);
      assert memory[position..position + size] == memory[..][position..position + size];
      position := endPosition;
    }

    method ReadByte() returns (b: Option<Byte>)
      requires Valid()
      modifies this`position
      ensures Valid() && Got(View(), b) == OneByte(old(View()))
      ensures View() == At(old(View()), position)
      ensures b.None? <==> old(position) == memory.Length
      ensures position == if b.None? then old(position) else old(position) + 1
      ensures b.Some? ==> b.value == memory[old(position)] && UnitAt(memory[..], old(position), [b.value])
    {
      var image := Read(1);
      b := if image.None? then None else Some(image.value[0]);
    }

    /** `ReadEndian`, and `ReadEndianConvert` on bit patterns. */
    method ReadEndian(w: nat) returns (value: Option<nat>)
      requires Valid() && w <= 16
      modifies this`position
      ensures Valid() && Got(View(), value) == Bits(old(View()), w)
    {
      var image := Read(w);
      if image.None? {
        return None;
      }
      var raw := HostValue(hostLittle, image.value);
      if bigEndian != !hostLittle {
        return Some(ReverseEndianness(w, raw));
      }
      return Some(raw);
    }

    method ReadBoolean() returns (value: Option<bool>)
      requires Valid()
      modifies this`position
      ensures Valid() && View() == ReadOne(old(View()), Boolean).s
      ensures ReadOne(old(View()), Boolean).value == if value.None? then None else Some(Bool(value.value))
    {
      var b := ReadByte();
      if b.None? {
        return None;
      }
      if b.value == 0 {
        return Some(false);
      } else if b.value == 1 {
        return Some(true);
      }
      return None;
    }

    method ReadVector2() returns (v: Option<Value>)
      requires Valid()
      modifies this`position
      ensures Valid() && Got(View(), v) == ReadOne(old(View()), Vector2)
    {
      hide Raw, LoadedValue, HostValue;
      ghost var before := View();
      if bigEndian != !hostLittle {
        ManyBitsUnfold(before, 4);
        var x := ReadEndian(4);
        if x.None? { return None; }
        var y := ReadEndian(4);
        if y.None? { return None; }
        assert [x.value] == [] + [x.value] && [x.value, y.value] == [x.value] + [y.value];
        return Some(Vector(Vector2, [x.value, y.value]));
      }
      var image := Read(8);
      v := if image.None? then None else Some(Vector(Vector2, HostNumbers(hostLittle, 4, image.value)));
    }

    method ReadVector3() returns (v: Option<Value>)
      requires Valid()
      modifies this`position
      ensures Valid() && Got(View(), v) == ReadOne(old(View()), Vector3)
    {
      hide Raw, LoadedValue, HostValue;
      ghost var before := View();
      if bigEndian != !hostLittle {
        ManyBitsUnfold(before, 4);
        var x := ReadEndian(4);
        if x.None? { return None; }
        var y := ReadEndian(4);
        if y.None? { return None; }
        var z := ReadEndian(4);
        if z.None? { return None; }
        assert [x.value] == [] + [x.value] && [x.value, y.value] == [x.value] + [y.value];
        assert [x.value, y.value, z.value] == [x.value, y.value] + [z.value];
        return Some(Vector(Vector3, [x.value, y.value, z.value]));
      }
      var image := Read(12);
      v := if image.None? then None else Some(Vector(Vector3, HostNumbers(hostLittle, 4, image.value)));
    }

    /** `ReadVector4` and `ReadQuaternion`. */
    method ReadVector4(k: Kind) returns (v: Option<Value>)
      requires Valid() && (k.Vector4? || k.Quaternion?)
      modifies this`position
      ensures Valid() && Got(View(), v) == ReadOne(old(View()), k)
    {
      hide Raw, LoadedValue, HostValue;
      ghost var before := View();
      if bigEndian != !hostLittle {
        ManyBitsUnfold(before, 4);
        var x := ReadEndian(4);
        if x.None? { return None; }
        var y := ReadEndian(4);
        if y.None? { return None; }
        var z := ReadEndian(4);
        if z.None? { return None; }
        var w := ReadEndian(4);
        if w.None? { return None; }
        assert [x.value] == [] + [x.value] && [x.value, y.value] == [x.value] + [y.value];
        assert [x.value, y.value, z.value] == [x.value, y.value] + [z.value];
        assert [x.value, y.value, z.value, w.value] == [x.value, y.value, z.value] + [w.value];
        return Some(Vector(k, [x.value, y.value, z.value, w.value]));
      }
      var image := Read(16);
      v := if image.None? then None else Some(Vector(k, HostNumbers(hostLittle, 4, image.value)));
    }

    /** The typed scalar readers, `ReadSByte` to `ReadQuaternion`. */
    method ReadValue(k: Kind) returns (v: Option<Value>)
      requires Valid()
      modifies this`position
      ensures Valid() && Got(View(), v) == ReadOne(old(View()), k)
    {
      if k.IsInteger() && k.Size() == 1 {
        var b := ReadByte();
        v := if b.None? then None else Some(Integer(k, Denoted(k.IsSigned(), 1, b.value)));
      } else if k.IsInteger() {
        var bits := ReadEndian(k.Size());
        v := if bits.None? then None else Some(Integer(k, Denoted(k.IsSigned(), k.Size(), bits.value)));
      } else if k.IsFloat() {
        var bits := ReadEndian(k.Size());
        v := if bits.None? then None else Some(Float(k, bits.value));
      } else if k.Vector2? {
        v := ReadVector2();
      } else if k.Vector3? {
        v := ReadVector3();
      } else if k.IsVector() {
        v := ReadVector4(k);
      } else {
        var b := ReadBoolean();
        v := if b.None? then None else Some(Bool(b.value));
      }
    }

    // ----- Positioned reads -----

    method Get(k: Kind, target: int) returns (v: Option<Value>)
      requires Valid() && IsInt64(target)
      modifies this`position
      ensures Valid() && Got(View(), v) == ValueAt(old(View()), k, target)
    {
      var returnPosition := position;
      var ok := SetPosition(target);
      if !ok { return None; }
      v := ReadValue(k);
      if v.Some? {
        position := returnPosition;
      }
    }

    method Peek(k: Kind) returns (v: Option<Value>)
      requires Valid()
      modifies this`position
      ensures Valid() && Got(View(), v) == Peeked(old(View()), k)
    {
      var startPosition := position;
      v := ReadValue(k);
      if v.Some? {
        position := startPosition;
      }
    }

    // ----- Arrays -----

    /** The bytes `ReadSpan<T>(count)` hands out, for a type of `size` bytes. */
    method ReadSpan(size: nat, count: int) returns (image: Option<seq<Byte>>)
      requires Valid() && IsInt32(count)
      modifies this`position
      ensures Valid() && Got(View(), image) == SpanBytes(old(View()), size, count)
    {
      var length := WrapInt32(size * count);
      var endPosition := WrapInt32(position + length);
      if endPosition > memory.Length {
        return None;
      }
      // Span.Slice throws unless the range lies inside the span.
      if length < 0 || position + length > memory.Length {
        return None;
      }
      image := Some(memory[position..position + length]);
      assert memory[position..position + length] == memory[..][position..position + length];
      position := endPosition;
    }

    /** `ReadBytes`: a span of single bytes. */
    method ReadBytes(count: int) returns (bytes: Option<seq<Byte>>)
      requires Valid() && IsInt32(count)
      modifies this`position
      ensures Valid() && View() == At(old(View()), position)
      ensures Got(View(), bytes) == SpanBytes(old(View()), 1, count)
      ensures bytes.None? <==> count < 0 || old(position) + count > memory.Length
      ensures bytes.Some? ==> |bytes.value| == count && UnitAt(memory[..], old(position), bytes.value)
      ensures position == if bytes.None? then old(position) else old(position) + count
    {
      ByteSpan(View(), count);
      bytes := ReadSpan(1, count);
    }

    /** `ReadInt16s` to `ReadDoubles`. */
    method ReadArrayEndian(w: nat, count: int) returns (values: Option<seq<nat>>)
      requires Valid() && 0 < w <= 16 && IsInt32(count)
      modifies this`position
      ensures Valid() && Got(View(), values) == ArrayBits(old(View()), w, count)
    {
      if bigEndian != !hostLittle {
        if count < 0 {
          return None;
        }
        values := ReadNumbers(w, count);
      } else {
        var image := ReadSpan(w, count);
        values := if image.None? then None else Some(HostNumbers(hostLittle, w, image.value));
      }
    }

    /** The loop that fills a new array with scalar reads. */
    method ReadNumbers(w: nat, count: nat) returns (values: Option<seq<nat>>)
      requires Valid() && w <= 16
      modifies this`position
      ensures Valid() && Got(View(), values) == ManyBits(old(View()), w, count)
    {
      hide ManyBits;
      ghost var before := View();
      ManyBitsUnfold(before, w);
      var filled := new nat[count](_ => 0);
      for i := 0 to count
        invariant Valid() && View() == ManyBits(before, w, i).s
        invariant ManyBits(before, w, i).value == Some(filled[..i])
      {
        ManyBitsLast(before, w, i + 1);
        var value := ReadEndian(w);
        if value.None? {
          ManyBitsFails(before, w, i + 1, count);
          return None;
        }
        filled[i] := value.value;
        assert filled[..i + 1] == filled[..i] + [value.value];
      }
      assert filled[..count] == filled[..];
      return Some(filled[..]);
    }

    method ReadVectors(k: Kind, count: int) returns (values: Option<seq<seq<nat>>>)
      requires Valid() && k.IsVector() && IsInt32(count)
      modifies this`position
      ensures Valid() && Got(View(), values) == VectorArray(old(View()), k, count)
    {
      if bigEndian != !hostLittle {
        var componentCount := WrapInt32(count * k.Components());
        if componentCount < 0 {
          return None;
        }
        var components := ReadNumbers(4, componentCount);
        values := if components.None? then None else Some(Grouped(k.Components(), components.value));
      } else {
        var image := ReadSpan(k.Size(), count);
        values := if image.None? then None
          else Some(Grouped(k.Components(), HostNumbers(hostLittle, 4, image.value)));
      }
    }

    // ----- Variable-width integers -----

    method ReadVarVal(signed: bool) returns (n: Option<int>)
      requires Valid()
      modifies this`position
      ensures Valid()
      ensures match BinaryMemoryWriters.VarKind(signed, old(variableValueSize))
        case None => n.None? && View() == old(View())
        case Some(k) =>
          && View() == ReadOne(old(View()), k).s
          && ReadOne(old(View()), k).value == if n.None? then None else Some(Integer(k, n.value))
    {
      match BinaryMemoryWriters.VarKind(signed, variableValueSize) {
        case None => return None;
        case Some(k) =>
          var v := ReadValue(k);
          n := if v.None? then None else Some(v.value.number);
      }
    }

    method ReadVarVals(signed: bool, count: int) returns (values: Option<seq<int>>)
      requires Valid() && IsInt32(count)
      modifies this`position
      ensures Valid()
      ensures match BinaryMemoryWriters.VarKind(signed, old(variableValueSize))
        case None => values.None? && View() == old(View())
        case Some(k) => Got(View(), values) == VarArray(old(View()), k, count)
    {
      match BinaryMemoryWriters.VarKind(signed, variableValueSize) {
        case None => return None;
        case Some(k) =>
          var bits: Option<seq<nat>>;
          if k.Size() == 8 {
            bits := ReadArrayEndian(8, count);
          } else if count < 0 {
            return None;
          } else {
            bits := ReadNumbers(k.Size(), count);
          }
          values := if bits.None? then None else Some(AllDenoted(k, bits.value));
      }
    }

    // ----- Terminated strings -----

    method Read8BitTerminatedStringBytes() returns (result: Option<seq<Byte>>)
      requires Valid()
      modifies this`position
      ensures Valid() && Got(View(), result) == Terminated(old(View()), 1, true)
    {
      hide Terminated, Joins, OneByte, Raw, AllZero, UnitAt;
      ghost var before := View();
      var bytes: seq<Byte> := [];
      JoinsStart(before, 1, true);
      var b := ReadByte();
      if b.None? {
        UnitMissing(before, 1, true, bytes, before.pos);
        return None;
      }
      while b.value != 0
        invariant Valid() && b.Some? && View() == At(before, position)
        invariant UnitAt(before.bytes, position - 1, [b.value])
        invariant Joins(before, 1, true, bytes, position - 1)
        decreases memory.Length - position
      {
        ZeroUnit1(b.value);
        TakeUnit(before, 1, true, bytes, position - 1, [b.value]);
        ghost var at := position;
        bytes := bytes + [b.value];
        b := ReadByte();
        if b.None? {
          UnitMissing(before, 1, true, bytes, at);
          return None;
        }
      }
      ZeroUnit1(b.value);
      TakeUnit(before, 1, true, bytes, position - 1, [b.value]);
      return Some(bytes);
    }

    /** The reads of `a` and `b`. */
    method ReadPair() returns (unit: Option<seq<Byte>>)
      requires Valid()
      modifies this`position
      ensures Valid() && View() == At(old(View()), position)
      ensures unit.None? <==> old(position) + 2 > memory.Length
      ensures unit.Some? ==> |unit.value| == 2 && UnitAt(memory[..], old(position), unit.value)
      ensures position == if unit.None? then memory.Length else old(position) + 2
    {
      hide OneByte;
      var a := ReadByte();
      if a.None? { return None; }
      var b := ReadByte();
      if b.None? { return None; }
      assert memory[..][old(position)..old(position) + 2] == [a.value, b.value];
      return Some([a.value, b.value]);
    }

    method Read16BitTerminatedStringBytes() returns (result: Option<seq<Byte>>)
      requires Valid()
      modifies this`position
      ensures Valid() && Got(View(), result) == Terminated(old(View()), 2, true)
    {
      hide Terminated, Joins, AllZero, UnitAt;
      ghost var before := View();
      var bytes: seq<Byte> := [];
      JoinsStart(before, 2, true);
      var unit := ReadPair();
      if unit.None? {
        UnitMissing(before, 2, true, bytes, before.pos);
        return None;
      }
      while !(unit.value[0] == 0 && unit.value[1] == 0)
        invariant Valid() && unit.Some? && View() == At(before, position)
        invariant |unit.value| == 2 && UnitAt(before.bytes, position - 2, unit.value)
        invariant Joins(before, 2, true, bytes, position - 2)
        decreases memory.Length - position
      {
        ZeroUnit2(unit.value);
        TakeUnit(before, 2, true, bytes, position - 2, unit.value);
        ghost var at := position;
        bytes := bytes + unit.value;
        unit := ReadPair();
        if unit.None? {
          UnitMissing(before, 2, true, bytes, at);
          return None;
        }
      }
      ZeroUnit2(unit.value);
      TakeUnit(before, 2, true, bytes, position - 2, unit.value);
      return Some(bytes);
    }

    /** The reads of `a`, `b`, `c` and `d`. */
    method ReadQuad() returns (unit: Option<seq<Byte>>)
      requires Valid()
      modifies this`position
      ensures Valid() && View() == At(old(View()), position)
      ensures unit.None? <==> old(position) + 4 > memory.Length
      ensures unit.Some? ==> |unit.value| == 4 && UnitAt(memory[..], old(position), unit.value)
      ensures position == if unit.None? then memory.Length else old(position) + 4
    {
      var ab := ReadPair();
      if ab.None? { return None; }
      var cd := ReadPair();
      if cd.None? { return None; }
      assert memory[..][old(position)..old(position) + 4] == ab.value + cd.value;
      return Some(ab.value + cd.value);
    }

    method Read32BitTerminatedStringBytes() returns (result: Option<seq<Byte>>)
      requires Valid()
      modifies this`position
      ensures Valid() && Got(View(), result) == Terminated(old(View()), 4, true)
    {
      hide Terminated, Joins, AllZero, UnitAt;
      ghost var before := View();
      var bytes: seq<Byte> := [];
      JoinsStart(before, 4, true);
      var unit := ReadQuad();
      if unit.None? {
        UnitMissing(before, 4, true, bytes, before.pos);
        return None;
      }
      while !(unit.value[0] == 0 && unit.value[1] == 0 && unit.value[2] == 0 && unit.value[3] == 0)
        invariant Valid() && unit.Some? && View() == At(before, position)
        invariant |unit.value| == 4 && UnitAt(before.bytes, position - 4, unit.value)
        invariant Joins(before, 4, true, bytes, position - 4)
        decreases memory.Length - position
      {
        ZeroUnit4(unit.value);
        TakeUnit(before, 4, true, bytes, position - 4, unit.value);
        ghost var at := position;
        bytes := bytes + unit.value;
        unit := ReadQuad();
        if unit.None? {
          UnitMissing(before, 4, true, bytes, at);
          return None;
        }
      }
      ZeroUnit4(unit.value);
      TakeUnit(before, 4, true, bytes, position - 4, unit.value);
      return Some(bytes);
    }

    /** One unit at a time. No byte per character means an empty string; a negative count throws. */
    method ReadTerminatedStringBytes(bytesPerChar: int) returns (result: Option<seq<Byte>>)
      requires Valid() && IsInt32(bytesPerChar)
      modifies this`position
      ensures Valid()
      ensures bytesPerChar >= 0 ==> Got(View(), result) == Terminated(old(View()), bytesPerChar, false)
      ensures bytesPerChar < 0 ==> Got(View(), result) == Got(old(View()), None)
    {
      hide Terminated, Joins, SpanBytes, UnitAt;
      ghost var before := View();
      var bytes: seq<Byte> := [];
      var unit := ReadBytes(bytesPerChar);
      if bytesPerChar >= 0 { JoinsStart(before, bytesPerChar, false); }
      if unit.None? {
        if bytesPerChar >= 0 { UnitMissing(before, bytesPerChar, false, bytes, before.pos); }
        return None;
      }
      var isNull := IsNull(unit.value);
      while !isNull
        invariant Valid() && unit.Some? && View() == At(before, position) && bytesPerChar >= 0
        invariant isNull <==> AllZero(unit.value)
        invariant |unit.value| == bytesPerChar && UnitAt(before.bytes, position - bytesPerChar, unit.value)
        invariant Joins(before, bytesPerChar, false, bytes, position - bytesPerChar)
        decreases memory.Length - position
      {
        ghost var at := position;
        TakeUnit(before, bytesPerChar, false, bytes, at - bytesPerChar, unit.value);
        bytes := bytes + unit.value;
        unit := ReadBytes(bytesPerChar);
        if unit.None? {
          UnitMissing(before, bytesPerChar, false, bytes, at);
          return None;
        }
        isNull := IsNull(unit.value);
      }
      TakeUnit(before, bytesPerChar, false, bytes, position - bytesPerChar, unit.value);
      return Some(bytes);
    }
  }

  /** A span of bytes is one raw read; a negative count throws. */
  lemma ByteSpan(s: State, count: int)
    requires Ready(s) && IsInt32(count)
    ensures count < 0 ==> SpanBytes(s, 1, count) == Got(s, None)
    ensures count >= 0 ==> SpanBytes(s, 1, count) == Raw(s, count)
    ensures count >= 0 ==> Raw(s, count) == if s.pos + count > |s.bytes| then Got(s, None)
      else Got(At(s, s.pos + count), Some(s.bytes[s.pos..s.pos + count]))
  {
  }

  ghost predicate UnitAt(bytes: seq<Byte>, at: int, unit: seq<Byte>) {
    0 <= at && at + |unit| <= |bytes| && bytes[at..at + |unit|] == unit
  }

  ghost predicate AllZero(bs: seq<Byte>) {
    forall i :: 0 <= i < |bs| ==> bs[i] == 0
  }

  method IsNull(bytes: seq<Byte>) returns (r: bool)
    ensures r <==> AllZero(bytes)
  {
    for i := 0 to |bytes|
      invariant forall j :: 0 <= j < i ==> bytes[j] == 0
    {
      if bytes[i] != 0 {
        return false;
      }
    }
    return true;
  }

  lemma UnitIsZero(bytes: seq<Byte>, at: int, u: nat)
    requires 0 <= at && at + u <= |bytes|
    ensures ZeroUnit(bytes, at, u) <==> AllZero(bytes[at..at + u])
  {
    var unit := bytes[at..at + u];
    assert forall i :: 0 <= i < u ==> unit[i] == bytes[at + i];
    if AllZero(unit) {
      forall i | at <= i < at + u ensures bytes[i] == 0 { assert unit[i - at] == 0; }
    }
  }

  /** The units in `[s.pos, at)` were read and are `bytes`: the answer is `bytes` before the answer from `at`. */
  ghost predicate Joins(s: State, u: nat, singly: bool, bytes: seq<Byte>, at: int)
    requires Ready(s)
  {
    && s.pos <= at <= |s.bytes|
    && Prefixed(Terminated(s, u, singly), Terminated(At(s, at), u, singly), bytes)
  }

  lemma JoinsStart(s: State, u: nat, singly: bool)
    requires Ready(s)
    ensures Joins(s, u, singly, [], s.pos)
  {
    var whole := Terminated(s, u, singly);
    assert At(s, s.pos) == s;
    assert whole.value.Some? ==> [] + whole.value.value == whole.value.value;
  }

  /** No whole unit is left at `at`. */
  lemma UnitMissing(s: State, u: nat, singly: bool, bytes: seq<Byte>, at: int)
    requires Ready(s) && Joins(s, u, singly, bytes, at) && at + u > |s.bytes|
    ensures Terminated(s, u, singly) == Got(At(s, if singly then |s.bytes| else at), None)
  {
  }

  lemma TerminatedStep(s: State, u: nat, singly: bool)
    requires Ready(s) && s.pos + u <= |s.bytes|
    ensures ZeroUnit(s.bytes, s.pos, u) ==> Terminated(s, u, singly) == Got(At(s, s.pos + u), Some([]))
    ensures !ZeroUnit(s.bytes, s.pos, u) ==>
      Prefixed(Terminated(s, u, singly), Terminated(At(s, s.pos + u), u, singly), s.bytes[s.pos..s.pos + u])
  {
  }

  /** The unit at `at` is `unit`: either it ends the string or it is one more unit of it. */
  lemma TakeUnit(s: State, u: nat, singly: bool, bytes: seq<Byte>, at: int, unit: seq<Byte>)
    requires Ready(s) && Joins(s, u, singly, bytes, at)
    requires |unit| == u && UnitAt(s.bytes, at, unit)
    ensures AllZero(unit) ==> Terminated(s, u, singly) == Got(At(s, at + u), Some(bytes))
    ensures !AllZero(unit) ==> Joins(s, u, singly, bytes + unit, at + u)
  {
    NextUnit(s, u, singly, at, unit);
    hide Terminated, AllZero, UnitAt;
    if AllZero(unit) {
      assert bytes + [] == bytes;
    } else {
      hide Prefixed;
      PrefixTwice(Terminated(s, u, singly), Terminated(At(s, at), u, singly), Terminated(At(s, at + u), u, singly),
        bytes, unit);
    }
  }

  lemma NextUnit(s: State, u: nat, singly: bool, at: int, unit: seq<Byte>)
    requires Ready(s) && |unit| == u && UnitAt(s.bytes, at, unit)
    ensures AllZero(unit) ==> Terminated(At(s, at), u, singly) == Got(At(s, at + u), Some([]))
    ensures !AllZero(unit) ==> Prefixed(Terminated(At(s, at), u, singly), Terminated(At(s, at + u), u, singly), unit)
  {
    UnitIsZero(s.bytes, at, u);
    TerminatedStep(At(s, at), u, singly);
    hide Terminated, ZeroUnit, AllZero;
    assert At(At(s, at), at + u) == At(s, at + u);
  }

  /** `whole` is what `rest` returns, with `bytes` in front. */
  ghost predicate Prefixed(whole: Got<seq<Byte>>, rest: Got<seq<Byte>>, bytes: seq<Byte>) {
    whole == Got(rest.s, if rest.value.None? then None else Some(bytes + rest.value.value))
  }

  lemma PrefixTwice(whole: Got<seq<Byte>>, mid: Got<seq<Byte>>, rest: Got<seq<Byte>>, a: seq<Byte>, b: seq<Byte>)
    requires Prefixed(whole, mid, a) && Prefixed(mid, rest, b)
    ensures Prefixed(whole, rest, a + b)
  {
    if rest.value.Some? {
      assert a + (b + rest.value.value) == a + b + rest.value.value;
    }
  }

  lemma ZeroUnit1(a: Byte)
    ensures AllZero([a]) <==> a == 0
  {
    assert [a][0] == a;
  }

  lemma ZeroUnit2(unit: seq<Byte>)
    requires |unit| == 2
    ensures AllZero(unit) <==> unit[0] == 0 && unit[1] == 0
  {
  }

  lemma ZeroUnit4(unit: seq<Byte>)
    requires |unit| == 4
    ensures AllZero(unit) <==> unit[0] == 0 && unit[1] == 0 && unit[2] == 0 && unit[3] == 0
  {
  }

  lemma ManyBitsUnfold(s: State, w: nat)
    requires Ready(s)
    ensures ManyBits(s, w, 0) == Got(s, Some([]))
    ensures ManyBits(s, w, 1) == ManyBitsStep(s, w, 1)
    ensures ManyBits(s, w, 2) == ManyBitsStep(s, w, 2)
    ensures ManyBits(s, w, 3) == ManyBitsStep(s, w, 3)
    ensures ManyBits(s, w, 4) == ManyBitsStep(s, w, 4)
  {
  }

  lemma ManyBitsLast(s: State, w: nat, n: nat)
    requires Ready(s) && n > 0
    ensures ManyBits(s, w, n) == ManyBitsStep(s, w, n)
  {
  }

  ghost function ManyBitsStep(s: State, w: nat, n: nat): Got<seq<nat>>
    requires Ready(s) && n > 0
  {
    var init := ManyBits(s, w, n - 1);
    if init.value.None? then init
    else
      var last := Bits(init.s, w);
      Got(last.s, if last.value.None? then None else Some(init.value.value + [last.value.value]))
  }

  lemma {:induction false} ManyBitsFails(s: State, w: nat, n: nat, m: nat)
    requires Ready(s) && n <= m && ManyBits(s, w, n).value.None?
    ensures ManyBits(s, w, m) == ManyBits(s, w, n)
  {
    if n < m { ManyBitsFails(s, w, n, m - 1); }
  }
}
