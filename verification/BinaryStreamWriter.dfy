/** The part of the stream writer that reserves, fills and checks on disposal that everything was filled. */
module BinaryStreamWriters {
  import opened ByteOrder
  import opened TypedValues
  import opened WriterMachine
  import Streams
  import D = DeferredWrites
  import Writers = BinaryMemoryWriters

  /** The kinds the stream writer can reserve and fill. */
  predicate Reservable(k: Kind) {
    (k.IsInteger() && k.Size() <= 8) || k.IsFloat()
  }

  /** Writing at a position inside a stream is what the machine's writes do. */
  lemma WrittenIsSpliced(data: seq<Byte>, pos: nat, bs: seq<Byte>)
    requires pos <= |data|
    ensures Streams.WrittenAt(data, pos, bs) == Splice(data, pos, bs)
  {
  }

  /** One more filler byte. */
  lemma FillerNext(s: State, n: nat, i: nat)
    requires Ready(s) && s.sink.Stream? && i < n && Emit(s, Filler(n)[..i]).ok
    ensures var t := Emit(s, Filler(n)[..i]).s;
      && Emit(t, [Little(1, 0xFE)]) == Emit(s, Filler(n)[..i + 1])
      && Emit(t, [Little(1, 0xFE)]).ok
      && Emit(t, [Little(1, 0xFE)]).s.pos == t.pos + 1
      && |Emit(t, [Little(1, 0xFE)]).s.bytes| <= |t.bytes| + 1
  {
    OneFiller();
    hide Emit, Little;
    Writers.EmitNext(s, Filler(n), i);
    EmitsOne(Emit(s, Filler(n)[..i]).s, Little(1, 0xFE));
  }

  lemma OneFiller()
    ensures Little(1, 0xFE) == [0xFE]
  {
  }

  lemma EmitsOne(t: State, bs: seq<Byte>)
    requires Ready(t) && t.sink.Stream? && |bs| == 1
    ensures Emit(t, [bs]).ok && Emit(t, [bs]).s.pos == t.pos + 1 && |Emit(t, [bs]).s.bytes| <= |t.bytes| + 1
  {
    EmitOne(t, bs);
    hide Emit;
  }

  class BinaryStreamWriter {
    /** `BitConverter.IsLittleEndian` of the machine. */
    const hostLittle: bool
    const baseStream: Streams.Stream
    var bigEndian: bool
    var reservations: map<string, int>
    var isDisposed: bool

    ghost predicate Valid()
      reads this, baseStream
    {
      Ready(View())
    }

    ghost function View(): State
      reads this, baseStream
    {
      State(Stream(hostLittle), baseStream.data, baseStream.position, bigEndian, reservations, [])
    }

    /** The call did exactly what the machine's step does. */
    twostate predicate Did(r: Outcome, ok: bool)
      reads this, baseStream
    {
      Valid() && View() == r.s && ok == r.ok && isDisposed == old(isDisposed)
    }

    constructor (baseStream: Streams.Stream, bigEndian: bool, hostLittle: bool)
      requires 0 <= baseStream.position <= |baseStream.data|
      ensures Valid() && this.baseStream == baseStream && !isDisposed
      ensures View() == State(Stream(hostLittle), baseStream.data, baseStream.position, bigEndian, map[], [])
    {
      this.baseStream := baseStream;
      this.bigEndian := bigEndian;
      this.hostLittle := hostLittle;
      reservations := map[];
      isDisposed := false;
    }

    /** `BinaryWriter` writes integers little-endian on every host. */
    method WriteLittle(w: nat, value: nat)
      requires Valid() && Streams.Ready(baseStream.View()) && w > 0
      modifies baseStream
      ensures Did(Emit(old(View()), [Little(w, value)]), true)
    {
      EmitOne(View(), Little(w, value));
      WrittenIsSpliced(baseStream.data, baseStream.position, Little(w, value));
      assert Little(w, value)[0..w] == Little(w, value);
      var ok := baseStream.Write(Little(w, value), 0, w);
    }

    method SetValueEndianness(w: nat, value: nat) returns (r: nat)
      ensures r == SwappedFor(Stream(hostLittle), bigEndian, w, value)
    {
      r := if bigEndian != !hostLittle then ReverseEndianness(w, value) else value;
    }

    /** The scalar writers, `WriteSByte` to `WriteDouble`. */
    method WriteValue(v: Value)
      requires Valid() && Streams.Ready(baseStream.View()) && v.WellTyped() && Reservable(v.KindOf())
      modifies baseStream
      ensures Did(Step(old(View()), WriterMachine.Write(v)), true)
    {
      var w := v.KindOf().Size();
      var bits := if v.Integer? then LowBits(w, v.number) else v.bits;
      if w == 1 {
        WriteLittle(1, bits);
      } else {
        var swapped := SetValueEndianness(w, bits);
        WriteLittle(w, swapped);
      }
    }

    method Reserve(name: string, kind: Kind) returns (ok: bool)
      requires Valid() && baseStream.position + 16 <= Streams.MAX_STREAM && |baseStream.data| + 16 <= Streams.MAX_STREAM
      requires Reservable(kind)
      modifies this`reservations, baseStream
      ensures Did(Step(old(View()), WriterMachine.Reserve(name, kind)), ok)
    {
      var key := KeyOf(name, TypeName(kind));
      if key in reservations {
        return false;
      }
      reservations := reservations[key := baseStream.position];
      hide Emit, Splice;
      ghost var before, chunks := View(), Filler(kind.Size());
      EmitNothing(before);
      assert chunks[..0] == [];
      for i := 0 to kind.Size()
        invariant Valid() && isDisposed == old(isDisposed)
        invariant baseStream.position == old(baseStream.position) + i && |baseStream.data| <= |old(baseStream.data)| + i
        invariant View() == Emit(before, chunks[..i]).s && Emit(before, chunks[..i]).ok
      {
        FillerNext(before, kind.Size(), i);
        WriteLittle(1, 0xFE);
      }
      assert chunks[..kind.Size()] == chunks;
      ok := true;
    }

    method TakeReservation(name: string, typeName: string) returns (jump: Option<int>)
      requires Valid()
      modifies this`reservations
      ensures Valid() && isDisposed == old(isDisposed)
      ensures var key := KeyOf(name, typeName);
        jump == if key in old(reservations) then Some(old(reservations)[key]) else None
      ensures View() == old(View()).(table := old(reservations) - {KeyOf(name, typeName)})
    {
      var key := KeyOf(name, typeName);
      if key !in reservations {
        assert reservations - {key} == reservations;
        return None;
      }
      jump := Some(reservations[key]);
      reservations := reservations - {key};
    }

    method Fill(name: string, v: Value) returns (ok: bool)
      requires Valid() && Streams.Ready(baseStream.View()) && v.WellTyped() && Reservable(v.KindOf())
      modifies this`reservations, baseStream
      ensures Did(Step(old(View()), WriterMachine.Fill(name, v)), ok)
    {
      var oldPosition := baseStream.position;
      var jump := TakeReservation(name, TypeName(v.KindOf()));
      if jump.None? {
        assert reservations == old(reservations);
        return false;
      }
      var moved := baseStream.SetPosition(jump.value);
      WriteValue(v);
      moved := baseStream.SetPosition(oldPosition);
      ok := true;
    }

    /** Throws while anything is unfilled, and then does not count as disposed. */
    method Dispose() returns (ok: bool)
      requires Valid()
      modifies this`isDisposed
      ensures ok <==> old(isDisposed) || reservations == map[]
      ensures isDisposed <==> ok
    {
      if !isDisposed {
        if |reservations| > 0 {
          return false;
        }
        isDisposed := true;
      }
      ok := true;
    }
  }

  /** After any run of writes, reservations and fills that does not throw, on a new writer, the first `Dispose` completes
      exactly when every reservation made was filled after it was made. */
  lemma DisposeCompletesExactly(s: State, ops: seq<Op>)
    requires Ready(s) && s.table == map[] && D.WellTypedOps(ops) && Run(s, ops).ok
    ensures Run(s, ops).s.table == map[] <==> forall p :: !D.Outstanding(ops, p)
  {
    hide Run, D.Outstanding;
    var table := Run(s, ops).s.table;
    D.KeysAreNamed(s, ops);
    if table == map[] {
      forall p ensures !D.Outstanding(ops, p) {
        D.OutstandingExact(s, ops, p);
      }
    } else {
      var k :| k in table;
      var p: Name :| p.Key() == k;
      D.OutstandingExact(s, ops, p);
    }
  }
}
