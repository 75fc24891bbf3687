/** The writer over a fixed region of memory. */
module BinaryMemoryWriters {
  import opened FixedWidth
  import opened ByteOrder
  import opened TypedValues
  import opened WriterMachine

  /** One piece per number: what the array writers write. */
  function ArrayChunks(sink: Sink, bigEndian: bool, w: nat, values: seq<nat>): (cs: seq<seq<Byte>>)
    ensures |cs| == |values|
    ensures forall i :: 0 <= i < |values| ==> cs[i] == ScalarBytes(sink, bigEndian, w, values[i])
  {
    seq(|values|, i requires 0 <= i < |values| => ScalarBytes(sink, bigEndian, w, values[i]))
  }

  function SingleBytes(bs: seq<Byte>): (cs: seq<seq<Byte>>)
    ensures |cs| == |bs|
    ensures forall i :: 0 <= i < |bs| ==> cs[i] == [bs[i]]
  {
    seq(|bs|, i requires 0 <= i < |bs| => [bs[i]])
  }

  /** The kind a variable-width integer of `size` bytes is written as. */
  function VarKind(signed: bool, size: int): Option<Kind> {
    if size == 1 then Some(if signed then SByte else UByte)
    else if size == 2 then Some(if signed then Int16 else UInt16)
    else if size == 4 then Some(if signed then Int32 else UInt32)
    else if size == 8 then Some(if signed then Int64 else UInt64)
    else None
  }

  /** The number reduced into the kind's range, as an unchecked cast does. */
  function Narrowed(k: Kind, n: int): int {
    Denoted(k.IsSigned(), k.Size(), LowBits(k.Size(), n))
  }

  function VarValue(k: Kind, n: int): Value {
    Integer(k, Narrowed(k, n))
  }

  /** The plural writers convert with a check: they stop at the first number that does not fit. */
  function EmitChecked(s: State, k: Kind, values: seq<int>): (r: Outcome)
    requires Ready(s)
    ensures Ready(r.s)
    decreases |values|
  {
    if values == [] then Outcome(s, true)
    else if !FitsIn(k.IsSigned(), k.Size(), values[0]) then Outcome(s, false)
    else
      var first := Step(s, Write(Integer(k, values[0])));
      if first.ok then EmitChecked(first.s, k, values[1..]) else first
  }

  lemma {:induction false} EmitCheckedMore(s: State, k: Kind, values: seq<int>, n: nat)
    requires Ready(s) && n < |values| && EmitChecked(s, k, values[..n]).ok
    ensures EmitChecked(s, k, values[..n + 1]) == EmitChecked(EmitChecked(s, k, values[..n]).s, k, [values[n]])
    ensures !EmitChecked(s, k, values[..n + 1]).ok ==> EmitChecked(s, k, values) == EmitChecked(s, k, values[..n + 1])
    decreases n
  {
    hide Step;
    if n == 0 {
      assert values[..1] == [values[0]] && values[..1][1..] == [];
    } else {
      assert values[..n][0] == values[0] && values[..n][1..] == values[1..][..n - 1];
      assert values[..n + 1][0] == values[0] && values[..n + 1][1..] == values[1..][..n];
      EmitCheckedMore(Step(s, Write(Integer(k, values[0]))).s, k, values[1..], n - 1);
    }
  }

  class BinaryMemoryWriter {
    /** `BitConverter.IsLittleEndian` of the machine. */
    const hostLittle: bool
    const memory: array<Byte>
    var position: int
    var bigEndian: bool
    var variableValueSize: int
    var steps: seq<int>
    var reservations: map<string, int>

    ghost predicate Valid()
      reads this, memory
    {
      && memory.Length <= MAX_LENGTH && Ready(View())
      && forall i :: 0 <= i < |steps| ==> 0 <= steps[i] <= memory.Length
    }

    ghost function View(): State
      reads this, memory
    {
      State(Memory(hostLittle), memory[..], position, bigEndian, reservations, steps)
    }

    /** The call did exactly what the machine's step does. */
    twostate predicate Did(r: Outcome, ok: bool)
      reads this, memory
    {
      && Valid()
      && View() == r.s && ok == r.ok
      && variableValueSize == old(variableValueSize)
    }

    constructor (memory: array<Byte>, bigEndian: bool, hostLittle: bool)
      requires memory.Length <= MAX_LENGTH
      ensures Valid() && this.memory == memory
      ensures View() == State(Memory(hostLittle), memory[..], 0, bigEndian, map[], [])
    {
      this.memory := memory;
      this.bigEndian := bigEndian;
      this.hostLittle := hostLittle;
      position := 0;
      variableValueSize := 0;
      steps := [];
      reservations := map[];
    }

    // ----- Cursor -----

    /** The setter compares only the low 32 bits of `value`, and stores only those. */
    method SetPosition(value: int) returns (ok: bool)
      requires Valid() && IsInt64(value)
      modifies this`position
      ensures ok <==> value % 0x1_0000_0000 <= memory.Length
      ensures Did(Outcome(old(View()).(pos := if ok then value % 0x1_0000_0000 else old(position)), ok), ok)
    {
      LowHalf(value, memory.Length);
      hide WrapUInt32, WrapInt32;
      if WrapUInt32(value) > WrapUInt32(memory.Length) {
        return false;
      }
      position := WrapInt32(value);
      return true;
    }

    /** The current position is saved before the target is checked. */
    method StepIn(target: int) returns (ok: bool)
      requires Valid() && IsInt64(target)
      modifies this`position, this`steps
      ensures ok <==> target % 0x1_0000_0000 <= memory.Length
      ensures Did(Outcome(old(View()).(steps := old(steps) + [old(position)],
        pos := if ok then target % 0x1_0000_0000 else old(position)), ok), ok)
    {
      steps := steps + [position];
      ok := SetPosition(target);
    }

    /** Goes back to the position saved last. */
    method StepOut() returns (ok: bool)
      requires Valid()
      modifies this`position, this`steps
      ensures ok <==> old(steps) != []
      ensures Did(Outcome(if ok then old(View()).(steps := old(steps)[..|old(steps)| - 1], pos := old(steps)[|old(steps)| - 1])
        else old(View()), ok), ok)
    {
      if |steps| < 1 {
        return false;
      }
      position, steps := steps[|steps| - 1], steps[..|steps| - 1];
      return true;
    }

    // ----- Raw and endian-aware writes -----

    /** Store the memory image of an unmanaged value, or throw if it would pass the end. */
    method Write(image: seq<Byte>) returns (ok: bool)
      requires Valid() && |image| <= 16
      modifies this`position, memory
      ensures Did(Emit(old(View()), [image]), ok)
    {
      ghost var before := View();
      EmitOne(before, image);
      var endPosition := WrapInt32(position + |image|);
      if endPosition > memory.Length {
        return false;
      }
      forall i | 0 <= i < |image| {
        memory[position + i] := image[i];
      }
      assert memory[..] == Splice(before.bytes, position, image);
      position := endPosition;
      return true;
    }

    method WriteEndian(w: nat, value: nat) returns (ok: bool)
      requires Valid() && w <= 16
      modifies this`position, memory
      ensures Did(Emit(old(View()), [ScalarBytes(Memory(hostLittle), bigEndian, w, value)]), ok)
    {
      var v := value;
      if bigEndian != !hostLittle {
        v := ReverseEndianness(w, v);
      }
      ok := Write(HostImage(hostLittle, w, v));
    }

    method WriteByte(value: Byte) returns (ok: bool)
      requires Valid()
      modifies this`position, memory
      ensures Did(Emit(old(View()), [[value]]), ok)
    {
      ok := Write([value]);
    }

    method WriteSingle(bits: nat) returns (ok: bool)
      requires Valid()
      modifies this`position, memory
      ensures Did(Emit(old(View()), [ScalarBytes(Memory(hostLittle), bigEndian, 4, bits)]), ok)
    {
      ok := WriteEndian(4, bits);
    }

    method WriteVector2(x: nat, y: nat) returns (ok: bool)
      requires Valid()
      modifies this`position, memory
      ensures Did(Emit(old(View()), Chunks(old(View()).sink, bigEndian, Vector(Vector2, [x, y]))), ok)
    {
      hide Emit, ScalarBytes, HostImage;
      ghost var before, chunks := View(), Chunks(View().sink, bigEndian, Vector(Vector2, [x, y]));
      if bigEndian != !hostLittle {
        ComponentPieces(before.sink, bigEndian, [x, y]);
        EmitStart(before, chunks);
        ok := WriteSingle(x);
        EmitNext(before, chunks, 0);
        if !ok { return; }
        ok := WriteSingle(y);
        EmitNext(before, chunks, 1);
      } else {
        HostImagesOf(hostLittle, x, y, 0, 0);
        ok := Write(HostImage(hostLittle, 4, x) + HostImage(hostLittle, 4, y));
      }
    }

    method WriteVector3(x: nat, y: nat, z: nat) returns (ok: bool)
      requires Valid()
      modifies this`position, memory
      ensures Did(Emit(old(View()), Chunks(old(View()).sink, bigEndian, Vector(Vector3, [x, y, z]))), ok)
    {
      hide Emit, ScalarBytes, HostImage;
      ghost var before, chunks := View(), Chunks(View().sink, bigEndian, Vector(Vector3, [x, y, z]));
      if bigEndian != !hostLittle {
        ComponentPieces(before.sink, bigEndian, [x, y, z]);
        EmitStart(before, chunks);
        ok := WriteSingle(x);
        EmitNext(before, chunks, 0);
        if !ok { return; }
        ok := WriteSingle(y);
        EmitNext(before, chunks, 1);
        if !ok { return; }
        ok := WriteSingle(z);
        EmitNext(before, chunks, 2);
      } else {
        HostImagesOf(hostLittle, x, y, z, 0);
        ok := Write(HostImage(hostLittle, 4, x) + HostImage(hostLittle, 4, y) + HostImage(hostLittle, 4, z));
      }
    }

    /** `WriteVector4` and `WriteQuaternion`. */
    method WriteVector4(k: Kind, x: nat, y: nat, z: nat, w: nat) returns (ok: bool)
      requires Valid() && (k.Vector4? || k.Quaternion?)
      modifies this`position, memory
      ensures Did(Emit(old(View()), Chunks(old(View()).sink, bigEndian, Vector(k, [x, y, z, w]))), ok)
    {
      hide Emit, ScalarBytes, HostImage;
      ghost var before, chunks := View(), Chunks(View().sink, bigEndian, Vector(k, [x, y, z, w]));
      if bigEndian != !hostLittle {
        ComponentPieces(before.sink, bigEndian, [x, y, z, w]);
        EmitStart(before, chunks);
        ok := WriteSingle(x);
        EmitNext(before, chunks, 0);
        if !ok { return; }
        ok := WriteSingle(y);
        EmitNext(before, chunks, 1);
        if !ok { return; }
        ok := WriteSingle(z);
        EmitNext(before, chunks, 2);
        if !ok { return; }
        ok := WriteSingle(w);
        EmitNext(before, chunks, 3);
      } else {
        HostImagesOf(hostLittle, x, y, z, w);
        ok := Write(HostImage(hostLittle, 4, x) + HostImage(hostLittle, 4, y)
          + HostImage(hostLittle, 4, z) + HostImage(hostLittle, 4, w));
      }
    }

    /** The typed scalar writers, `WriteSByte` to `WriteQuaternion`. */
    method WriteValue(v: Value) returns (ok: bool)
      requires Valid() && v.WellTyped()
      modifies this`position, memory
      ensures Did(Step(old(View()), WriterMachine.Write(v)), ok)
    {
      match v {
        case Integer(k, n) =>
          if k.Size() == 1 {
            ok := Write(HostImage(hostLittle, 1, LowBits(1, n)));
            OneByteOrder(true, LowBits(1, n));
            OneByteOrder(false, LowBits(1, n));
          } else {
            ok := WriteEndian(k.Size(), LowBits(k.Size(), n));
          }
        case Float(k, bits) =>
          ok := WriteEndian(k.Size(), bits);
        case Bool(b) =>
          ok := Write([if b then 1 else 0]);
        case Vector(k, c) =>
          if k.Vector2? {
            assert c == [c[0], c[1]];
            ok := WriteVector2(c[0], c[1]);
          } else if k.Vector3? {
            assert c == [c[0], c[1], c[2]];
            ok := WriteVector3(c[0], c[1], c[2]);
          } else {
            assert c == [c[0], c[1], c[2], c[3]];
            ok := WriteVector4(k, c[0], c[1], c[2], c[3]);
          }
      }
    }

    /** Zero bytes up to the next multiple of `alignment`; a zero alignment divides by zero. */
    method Pad(alignment: int) returns (ok: bool)
      requires Valid() && IsInt32(alignment)
      modifies this`position, memory
      ensures alignment == 0 ==> Did(Outcome(old(View()), false), ok)
      ensures alignment != 0 ==> Did(Emit(old(View()), SingleBytes(PadBytes(old(position), alignment))), ok)
    {
      if alignment == 0 {
        return false;
      }
      ghost var before, chunks := View(), SingleBytes(PadBytes(position, alignment));
      var remainder := position % alignment;
      ok := true;
      if remainder > 0 {
        var count := alignment - remainder;
        assert chunks[..0] == [];
        ghost var done := 0;
        while count > 0
          invariant Valid() && count <= |chunks| && (|chunks| == 0 || count == |chunks| - done) && 0 <= done <= |chunks|
          invariant count <= 0 ==> done == |chunks|
          invariant View() == Emit(before, chunks[..done]).s && Emit(before, chunks[..done]).ok
          invariant variableValueSize == old(variableValueSize)
        {
          ok := WriteByte(0);
          EmitNext(before, chunks, done);
          if !ok { return; }
          count := count - 1;
          done := done + 1;
        }
        assert chunks[..done] == chunks;
      }
    }

    // ----- Reservations -----

    method Reserve(name: string, typeName: string, length: nat) returns (ok: bool)
      requires Valid()
      modifies this`position, this`reservations, memory
      ensures Did(StepReserve(old(View()), name, typeName, length), ok)
    {
      var key := KeyOf(name, typeName);
      if key in reservations {
        return false;
      }
      reservations := reservations[key := position];
      ghost var before, chunks := View(), Filler(length);
      ok := true;
      assert chunks[..0] == [];
      for i := 0 to length
        invariant Valid() && ok
        invariant View() == Emit(before, chunks[..i]).s && Emit(before, chunks[..i]).ok
        invariant variableValueSize == old(variableValueSize)
      {
        ok := WriteByte(0xFE);
        EmitNext(before, chunks, i);
        if !ok { return; }
      }
      assert chunks[..length] == chunks;
    }

    /** `ReserveSByte` to `ReserveQuaternion`. */
    method ReserveKind(name: string, kind: Kind) returns (ok: bool)
      requires Valid()
      modifies this`position, this`reservations, memory
      ensures Did(Step(old(View()), WriterMachine.Reserve(name, kind)), ok)
    {
      ok := Reserve(name, TypeName(kind), kind.Size());
    }

    method TakeReservation(name: string, typeName: string) returns (jump: Option<int>)
      requires Valid()
      modifies this`reservations
      ensures Valid()
      ensures var key := KeyOf(name, typeName);
        jump == if key in old(reservations) then Some(old(reservations)[key]) else None
      ensures View() == old(View()).(table := old(reservations) - {KeyOf(name, typeName)})
    {
      var key := KeyOf(name, typeName);
      if key !in reservations {
        assert reservations - {key} == reservations;
        return None;
      }
      jump := Some(reservations[key]);
      reservations := reservations - {key};
    }

    method Fill(name: string, typeName: string, v: Value) returns (ok: bool)
      requires Valid() && v.WellTyped()
      modifies this`position, this`reservations, memory
      ensures Did(StepFill(old(View()), name, typeName, v), ok)
    {
      var returnPosition := position;
      var jump := TakeReservation(name, typeName);
      if jump.None? {
        assert reservations == old(reservations);
        return false;
      }
      position := jump.value;
      ok := WriteValue(v);
      if ok {
        position := returnPosition;
      }
    }

    /** `FillSByte` to `FillQuaternion`; the 128-bit signed one asks for the type name of an Int64. */
    method FillKind(name: string, v: Value) returns (ok: bool)
      requires Valid() && v.WellTyped()
      modifies this`position, this`reservations, memory
      ensures Did(Step(old(View()), WriterMachine.Fill(name, v)), ok)
    {
      ok := Fill(name, if v.KindOf().Int128? then TypeName(Int64) else TypeName(v.KindOf()), v);
    }

    // ----- Arrays -----

    method WriteBytes(values: seq<Byte>) returns (ok: bool)
      requires Valid()
      modifies this`position, memory
      ensures Did(Emit(old(View()), SingleBytes(values)), ok)
    {
      ghost var before, chunks := View(), SingleBytes(values);
      ok := true;
      assert chunks[..0] == [];
      for i := 0 to |values|
        invariant Valid() && ok
        invariant View() == Emit(before, chunks[..i]).s && Emit(before, chunks[..i]).ok
        invariant variableValueSize == old(variableValueSize)
      {
        ok := Write([values[i]]);
        EmitNext(before, chunks, i);
        if !ok { return; }
      }
      assert chunks[..|values|] == chunks;
    }

    method WriteArrayEndian(w: nat, values: seq<nat>) returns (ok: bool)
      requires Valid() && w <= 16
      modifies this`position, memory
      ensures Did(Emit(old(View()), ArrayChunks(Memory(hostLittle), bigEndian, w, values)), ok)
    {
      hide Emit, Splice, HostImage, ReverseEndianness;
      ghost var before, chunks := View(), ArrayChunks(Memory(hostLittle), bigEndian, w, values);
      EmitNothing(before);
      ok := true;
      assert chunks[..0] == [];
      if bigEndian != !hostLittle {
        for i := 0 to |values|
          invariant Valid() && ok && bigEndian == old(bigEndian)
          invariant View() == Emit(before, chunks[..i]).s && Emit(before, chunks[..i]).ok
          invariant variableValueSize == old(variableValueSize)
        {
          ok := Write(HostImage(hostLittle, w, ReverseEndianness(w, values[i])));
          EmitNext(before, chunks, i);
          if !ok { return; }
        }
      } else {
        for i := 0 to |values|
          invariant Valid() && ok && bigEndian == old(bigEndian)
          invariant View() == Emit(before, chunks[..i]).s && Emit(before, chunks[..i]).ok
          invariant variableValueSize == old(variableValueSize)
        {
          ok := Write(HostImage(hostLittle, w, values[i]));
          EmitNext(before, chunks, i);
          if !ok { return; }
        }
      }
      assert chunks[..|values|] == chunks;
    }

    // ----- Variable-width integers -----

    /** `WriteSignedVarVal` and `WriteUnsignedVarVal`: an unchecked cast, then the writer of that width. */
    method WriteVarVal(signed: bool, value: int) returns (ok: bool)
      requires Valid() && FitsIn(signed, 8, value)
      modifies this`position, memory
      ensures Did(match VarKind(signed, variableValueSize)
        case None => Outcome(old(View()), false)
        case Some(k) => Step(old(View()), WriterMachine.Write(VarValue(k, value))), ok)
    {
      match VarKind(signed, variableValueSize) {
        case None => ok := false;
        case Some(k) =>
          NarrowingExact(k.IsSigned(), k.Size(), value);
          ok := WriteValue(Integer(k, Narrowed(k, value)));
      }
    }

    /** `WriteSignedVarVals` and `WriteUnsignedVarVals`. */
    method WriteVarVals(signed: bool, values: seq<int>) returns (ok: bool)
      requires Valid() && forall i :: 0 <= i < |values| ==> FitsIn(signed, 8, values[i])
      modifies this`position, memory
      ensures Did(match VarKind(signed, variableValueSize)
        case None => Outcome(old(View()), false)
        case Some(k) => EmitChecked(old(View()), k, values), ok)
    {
      match VarKind(signed, variableValueSize) {
        case None => ok := false;
        case Some(k) =>
          ghost var before := View();
          ok := true;
          assert values[..0] == [];
          for i := 0 to |values|
            invariant Valid() && ok
            invariant View() == EmitChecked(before, k, values[..i]).s && EmitChecked(before, k, values[..i]).ok
            invariant variableValueSize == old(variableValueSize)
          {
            ghost var now := View();
            EmitCheckedMore(before, k, values, i);
            CheckedOne(now, k, values[i]);
            if !FitsIn(k.IsSigned(), k.Size(), values[i]) {
              return false;
            }
            ok := WriteValue(Integer(k, values[i]));
            if !ok { return; }
          }
          assert values[..|values|] == values;
      }
    }
  }

  lemma CheckedOne(s: State, k: Kind, n: int)
    requires Ready(s)
    ensures EmitChecked(s, k, [n]) ==
      if FitsIn(k.IsSigned(), k.Size(), n) then Step(s, Write(Integer(k, n))) else Outcome(s, false)
  {
    assert [n][1..] == [];
  }

  function PadBytes(position: int, alignment: int): seq<Byte>
    requires alignment != 0
  {
    var remainder := position % alignment;
    if remainder > 0 && alignment > remainder then seq(alignment - remainder, _ => 0) else []
  }

  lemma {:induction false} HostImagesSnoc(hostLittle: bool, c: seq<nat>, x: nat)
    ensures HostImages(hostLittle, c + [x]) == HostImages(hostLittle, c) + HostImage(hostLittle, 4, x)
  {
    hide HostImage;
    if c == [] {
      assert ([] + [x])[1..] == [];
    } else {
      assert (c + [x])[1..] == c[1..] + [x];
      HostImagesSnoc(hostLittle, c[1..], x);
    }
  }

  lemma HostImagesOf(hostLittle: bool, x: nat, y: nat, z: nat, w: nat)
    ensures HostImages(hostLittle, [x, y]) == HostImage(hostLittle, 4, x) + HostImage(hostLittle, 4, y)
    ensures HostImages(hostLittle, [x, y, z]) == HostImages(hostLittle, [x, y]) + HostImage(hostLittle, 4, z)
    ensures HostImages(hostLittle, [x, y, z, w]) == HostImages(hostLittle, [x, y, z]) + HostImage(hostLittle, 4, w)
  {
    hide HostImage;
    assert [x][1..] == [];
    assert [x] + [y] == [x, y] && [x, y] + [z] == [x, y, z] && [x, y, z] + [w] == [x, y, z, w];
    HostImagesSnoc(hostLittle, [x], y);
    HostImagesSnoc(hostLittle, [x, y], z);
    HostImagesSnoc(hostLittle, [x, y, z], w);
  }

  lemma {:induction false} ComponentPieces(sink: Sink, bigEndian: bool, c: seq<nat>)
    ensures ComponentChunks(sink, bigEndian, c) == ArrayChunks(sink, bigEndian, 4, c)
  {
    hide ScalarBytes;
    if c != [] {
      ComponentPieces(sink, bigEndian, c[1..]);
    }
  }

  lemma EmitStart(s: State, chunks: seq<seq<Byte>>)
    requires Ready(s)
    ensures Emit(s, chunks[..0]) == Outcome(s, true)
  {
    assert chunks[..0] == [];
  }

  /** Continuing a run of pieces by one: either it goes on, or the whole run ends here. */
  lemma EmitNext(s: State, chunks: seq<seq<Byte>>, n: nat)
    requires Ready(s) && n < |chunks| && Emit(s, chunks[..n]).ok
    ensures chunks[..0] == [] && chunks[..|chunks|] == chunks
    ensures Emit(s, chunks[..n + 1]) == Emit(Emit(s, chunks[..n]).s, [chunks[n]])
    ensures !Emit(s, chunks[..n + 1]).ok ==> Emit(s, chunks) == Emit(s, chunks[..n + 1])
  {
    hide Emit;
    EmitOneMore(s, chunks, n);
    if !Emit(s, chunks[..n + 1]).ok {
      EmitPrefixFails(s, chunks, n + 1);
    }
  }
}
