/** Reserving space and filling it later is the same as writing the value in place.

    The proof runs the machine beside a layout: a list of slots, each either done or a named hole. */
module DeferredWrites {
  import opened ByteOrder
  import opened TypedValues
  import opened WriterMachine

  // ----- The reordering -----

  predicate Fills(op: Op, p: Name) {
    op.Fill? && Name(op.name, TakenKind(op.v.KindOf())) == p
  }

  /** The value of the first fill of `p`. */
  function FirstFill(ops: seq<Op>, p: Name): Option<Value> {
    if ops == [] then None
    else if Fills(ops[0], p) then Some(ops[0].v)
    else FirstFill(ops[1..], p)
  }

  /** The same program with every fill moved to the place where its space was reserved.
      A reservation that is never filled stays. */
  function Direct(ops: seq<Op>): seq<Op> {
    if ops == [] then []
    else
      var rest := Direct(ops[1..]);
      match ops[0]
      case Write(v) => [Write(v)] + rest
      case Fill(_, _) => rest
      case Reserve(name, kind) =>
        match FirstFill(ops[1..], Name(name, kind))
        case Some(v) => [Write(v)] + rest
        case None => [Reserve(name, kind)] + rest
  }

  ghost predicate WellTypedOps(ops: seq<Op>) {
    forall i :: 0 <= i < |ops| && !ops[i].Reserve? ==> ops[i].v.WellTyped()
  }

  predicate IsInt128Fill(op: Op) {
    op.Fill? && op.v.KindOf().Int128?
  }

  predicate NoInt128Fill(ops: seq<Op>) {
    forall i :: 0 <= i < |ops| ==> !IsInt128Fill(ops[i])
  }

  ghost predicate WellFormed(ops: seq<Op>) {
    WellTypedOps(ops) && NoInt128Fill(ops)
  }

  // ----- Layouts -----

  datatype Slot = Done(bytes: seq<Byte>) | Hole(name: string, kind: Kind)

  function SlotBytes(slot: Slot): seq<Byte> {
    match slot
    case Done(bytes) => bytes
    case Hole(_, kind) => Flatten(Filler(kind.Size()))
  }

  function Render(slots: seq<Slot>): seq<Byte> {
    if slots == [] then [] else Render(slots[..|slots| - 1]) + SlotBytes(slots[|slots| - 1])
  }

  function Resolve(s: State, slot: Slot, ops: seq<Op>): Slot {
    if slot.Done? then slot
    else match FirstFill(ops, Name(slot.name, slot.kind))
      case Some(v) => Done(ValueBytes(s, v))
      case None => slot
  }

  function ResolveAll(s: State, slots: seq<Slot>, ops: seq<Op>): (r: seq<Slot>)
    ensures |r| == |slots|
    ensures forall i :: 0 <= i < |slots| ==> r[i] == Resolve(s, slots[i], ops)
  {
    if slots == [] then []
    else ResolveAll(s, slots[..|slots| - 1], ops) + [Resolve(s, slots[|slots| - 1], ops)]
  }

  /** The slots a program lays down, each hole already looked up in the rest of the program. */
  function Expected(s: State, ops: seq<Op>): seq<Slot> {
    if ops == [] then []
    else
      var rest := Expected(s, ops[1..]);
      match ops[0]
      case Write(v) => [Done(ValueBytes(s, v))] + rest
      case Fill(_, _) => rest
      case Reserve(name, kind) => [Resolve(s, Hole(name, kind), ops[1..])] + rest
  }

  /** `t` is `s` with the layout written at its cursor, and its table names exactly the holes. */
  ghost predicate LaidOut(s: State, t: State, slots: seq<Slot>) {
    && Ready(s)
    && t.sink == s.sink && t.bigEndian == s.bigEndian && t.steps == s.steps
    && Fits(s, |Render(slots)|)
    && t.bytes == Splice(s.bytes, s.pos, Render(slots))
    && t.pos == s.pos + |Render(slots)|
    && NamesHoles(s.pos, t.table, slots)
  }

  ghost predicate NamesHoles(base: int, table: map<string, int>, slots: seq<Slot>) {
    EntriesRight(base, table, slots) && KeysNamed(table, slots) && HolesDistinct(slots)
  }

  ghost predicate EntriesRight(base: int, table: map<string, int>, slots: seq<Slot>) {
    forall i :: 0 <= i < |slots| && slots[i].Hole? ==> HoleEntry(base, table, slots, i)
  }

  ghost predicate KeysNamed(table: map<string, int>, slots: seq<Slot>) {
    forall k :: k in table ==> exists i :: 0 <= i < |slots| && NamedBy(slots, i, k)
  }

  ghost predicate HolesDistinct(slots: seq<Slot>) {
    forall i, j :: 0 <= i < j < |slots| && slots[i].Hole? ==> slots[i] != slots[j]
  }

  ghost predicate HoleEntry(base: int, table: map<string, int>, slots: seq<Slot>, i: nat)
    requires i < |slots| && slots[i].Hole?
  {
    var k := KeyOf(slots[i].name, TypeName(slots[i].kind));
    k in table && table[k] == base + |Render(slots[..i])|
  }

  ghost predicate NamedBy(slots: seq<Slot>, i: nat, k: string)
    requires i < |slots|
  {
    slots[i].Hole? && k == KeyOf(slots[i].name, TypeName(slots[i].kind))
  }

  lemma SameKey(name: string, kind: Kind, name': string, kind': Kind)
    requires KeyOf(name, TypeName(kind)) == KeyOf(name', TypeName(kind'))
    ensures name == name' && kind == kind'
  {
    assert Name(name, kind).Key() == Name(name', kind').Key();
    KeyInjective(Name(name, kind), Name(name', kind'));
  }

  lemma RenderSnoc(slots: seq<Slot>, slot: Slot)
    ensures Render(slots + [slot]) == Render(slots) + SlotBytes(slot)
  {
    assert (slots + [slot])[..|slots|] == slots;
  }

  lemma HoleSize(name: string, kind: Kind)
    ensures |SlotBytes(Hole(name, kind))| == kind.Size()
  {
    FillerBytes(kind.Size());
  }

  lemma {:induction false} HoleInside(slots: seq<Slot>, i: nat)
    requires i < |slots|
    ensures |Render(slots[..i])| + |SlotBytes(slots[i])| <= |Render(slots)|
    decreases |slots|
  {
    var n := |slots| - 1;
    assert slots == slots[..n] + [slots[n]];
    RenderSnoc(slots[..n], slots[n]);
    hide Render, SlotBytes;
    if i < n {
      assert slots[..n][..i] == slots[..i];
      HoleInside(slots[..n], i);
    }
  }

  lemma SpliceLeft(a: seq<Byte>, at: int, c: seq<Byte>, d: seq<Byte>)
    requires 0 <= at && at + |c| <= |a|
    ensures Splice(a, at, c) + d == Splice(a + d, at, c)
  {
  }

  lemma SpliceEnd(a: seq<Byte>, b: seq<Byte>, c: seq<Byte>)
    requires |b| == |c|
    ensures Splice(a + b, |a|, c) == a + c
  {
  }

  /** Completing a hole keeps every offset and changes just the bytes of the hole. */
  lemma {:induction false} RenderUpdate(slots: seq<Slot>, i: nat, bs: seq<Byte>)
    requires i < |slots| && |SlotBytes(slots[i])| == |bs|
    ensures |Render(slots[..i])| + |bs| <= |Render(slots)|
    ensures Render(slots[i := Done(bs)]) == Splice(Render(slots), |Render(slots[..i])|, bs)
    ensures |Render(slots[i := Done(bs)])| == |Render(slots)|
    decreases |slots|
  {
    hide Render, Splice;
    HoleInside(slots, i);
    var n := |slots| - 1;
    var init, last := slots[..n], slots[n];
    assert slots == init + [last];
    RenderSnoc(init, last);
    if i == n {
      assert slots[i := Done(bs)] == init + [Done(bs)];
      RenderSnoc(init, Done(bs));
      SpliceEnd(Render(init), SlotBytes(last), bs);
    } else {
      assert slots[i := Done(bs)] == init[i := Done(bs)] + [last];
      assert init[..i] == slots[..i];
      RenderUpdate(init, i, bs);
      RenderSnoc(init[i := Done(bs)], last);
      SpliceLeft(Render(init), |Render(slots[..i])|, bs, SlotBytes(last));
    }
  }

  lemma OffsetsKept(slots: seq<Slot>, i: nat, bs: seq<Byte>, j: nat)
    requires i < |slots| && |SlotBytes(slots[i])| == |bs| && j <= |slots|
    ensures |Render(slots[i := Done(bs)][..j])| == |Render(slots[..j])|
  {
    if i < j {
      assert slots[i := Done(bs)][..j] == slots[..j][i := Done(bs)];
      assert slots[..j][..i] == slots[..i];
      RenderUpdate(slots[..j], i, bs);
    } else {
      assert slots[i := Done(bs)][..j] == slots[..j];
    }
  }

  // ----- One step keeps the layout -----

  lemma WriteKeepsLayout(s: State, t: State, slots: seq<Slot>, v: Value)
    requires LaidOut(s, t, slots) && Ready(t) && Step(t, Write(v)).ok
    ensures LaidOut(s, Step(t, Write(v)).s, slots + [Done(ValueBytes(s, v))])
  {
    hide Splice, Render, NamesHoles, Chunks, Flatten;
    var bs := ValueBytes(s, v);
    EmitIsPut(t, Chunks(t.sink, t.bigEndian, v));
    AppendBytes(s, t, slots, Done(bs));
    NamesAfterAppend(s.pos, t.table, slots, Done(bs));
  }

  lemma AppendBytes(s: State, t: State, slots: seq<Slot>, slot: Slot)
    requires LaidOut(s, t, slots) && Ready(t) && Fits(t, |SlotBytes(slot)|)
    ensures Fits(s, |Render(slots + [slot])|)
    ensures Put(t, SlotBytes(slot)).bytes == Splice(s.bytes, s.pos, Render(slots + [slot]))
    ensures Put(t, SlotBytes(slot)).pos == s.pos + |Render(slots + [slot])|
  {
    RenderSnoc(slots, slot);
    PutTwice(s, Render(slots), SlotBytes(slot));
  }

  lemma PrefixesKept(slots: seq<Slot>, slot: Slot)
    ensures forall i :: 0 <= i <= |slots| ==> (slots + [slot])[..i] == slots[..i]
  {
  }

  lemma NamesAfterAppend(base: int, table: map<string, int>, slots: seq<Slot>, slot: Slot)
    requires NamesHoles(base, table, slots) && slot.Done?
    ensures NamesHoles(base, table, slots + [slot])
  {
    hide Render;
    var more := slots + [slot];
    PrefixesKept(slots, slot);
    forall k | k in table
      ensures exists i :: 0 <= i < |more| && NamedBy(more, i, k)
    {
      var i :| 0 <= i < |slots| && NamedBy(slots, i, k);
      assert NamedBy(more, i, k);
    }
    forall i | 0 <= i < |more| && more[i].Hole?
      ensures HoleEntry(base, table, more, i)
    {
      assert HoleEntry(base, table, slots, i);
    }
  }

  lemma NamesAfterReserve(base: int, table: map<string, int>, slots: seq<Slot>, name: string, kind: Kind)
    requires NamesHoles(base, table, slots) && KeyOf(name, TypeName(kind)) !in table
    ensures NamesHoles(base, table[KeyOf(name, TypeName(kind)) := base + |Render(slots)|], slots + [Hole(name, kind)])
  {
    EntriesAfterReserve(base, table, slots, name, kind);
    KeysAfterReserve(table, slots, name, kind, base + |Render(slots)|);
    DistinctAfterReserve(base, table, slots, name, kind);
    hide Render, KeyOf, EntriesRight, KeysNamed, HolesDistinct;
  }

  lemma EntriesAfterReserve(base: int, table: map<string, int>, slots: seq<Slot>, name: string, kind: Kind)
    requires EntriesRight(base, table, slots) && KeyOf(name, TypeName(kind)) !in table
    ensures EntriesRight(base, table[KeyOf(name, TypeName(kind)) := base + |Render(slots)|], slots + [Hole(name, kind)])
  {
    hide Render, KeyOf;
    var table' := table[KeyOf(name, TypeName(kind)) := base + |Render(slots)|];
    var more := slots + [Hole(name, kind)];
    PrefixesKept(slots, Hole(name, kind));
    assert more[..|slots|] == slots;
    forall i | 0 <= i < |more| && more[i].Hole?
      ensures HoleEntry(base, table', more, i)
    {
      if i < |slots| {
        assert HoleEntry(base, table, slots, i);
      }
    }
  }

  lemma KeysAfterReserve(table: map<string, int>, slots: seq<Slot>, name: string, kind: Kind, at: int)
    requires KeysNamed(table, slots)
    ensures KeysNamed(table[KeyOf(name, TypeName(kind)) := at], slots + [Hole(name, kind)])
  {
    hide KeyOf;
    var key := KeyOf(name, TypeName(kind));
    var more := slots + [Hole(name, kind)];
    var table' := table[key := at];
    forall k | k in table'
      ensures exists i :: 0 <= i < |more| && NamedBy(more, i, k)
    {
      if k == key {
        assert NamedBy(more, |slots|, k);
      } else {
        var i :| 0 <= i < |slots| && NamedBy(slots, i, k);
        assert NamedBy(more, i, k);
      }
    }
  }

  lemma DistinctAfterReserve(base: int, table: map<string, int>, slots: seq<Slot>, name: string, kind: Kind)
    requires NamesHoles(base, table, slots) && KeyOf(name, TypeName(kind)) !in table
    ensures HolesDistinct(slots + [Hole(name, kind)])
  {
    hide Render, KeyOf, KeysNamed;
    forall i | 0 <= i < |slots| && slots[i].Hole?
      ensures slots[i] != Hole(name, kind)
    {
      assert HoleEntry(base, table, slots, i);
    }
  }

  lemma ReserveKeepsLayout(s: State, t: State, slots: seq<Slot>, name: string, kind: Kind)
    requires LaidOut(s, t, slots) && Ready(t) && Step(t, Reserve(name, kind)).ok
    ensures LaidOut(s, Step(t, Reserve(name, kind)).s, slots + [Hole(name, kind)])
  {
    hide Splice, Render, NamesHoles, KeyOf, Filler, Flatten;
    var t' := t.(table := t.table[KeyOf(name, TypeName(kind)) := t.pos]);
    EmitIsPut(t', Filler(kind.Size()));
    AppendBytes(s, t, slots, Hole(name, kind));
    NamesAfterReserve(s.pos, t.table, slots, name, kind);
  }

  lemma NamesAfterFill(base: int, table: map<string, int>, slots: seq<Slot>, i: nat, bs: seq<Byte>)
    requires NamesHoles(base, table, slots)
    requires i < |slots| && slots[i].Hole? && |bs| == |SlotBytes(slots[i])|
    ensures NamesHoles(base, table - {KeyOf(slots[i].name, TypeName(slots[i].kind))}, slots[i := Done(bs)])
  {
    hide Render;
    hide KeyOf;
    var key := KeyOf(slots[i].name, TypeName(slots[i].kind));
    var table' := table - {key};
    var less := slots[i := Done(bs)];
    forall k | k in table'
      ensures exists j :: 0 <= j < |less| && NamedBy(less, j, k)
    {
      var j :| 0 <= j < |slots| && NamedBy(slots, j, k);
      assert NamedBy(less, j, k);
    }
    forall j | 0 <= j < |less| && less[j].Hole?
      ensures HoleEntry(base, table', less, j)
    {
      assert HoleEntry(base, table, slots, j);
      OffsetsKept(slots, i, bs, j);
      if KeyOf(slots[j].name, TypeName(slots[j].kind)) == key {
        SameKey(slots[j].name, slots[j].kind, slots[i].name, slots[i].kind);
      }
    }
  }

  lemma SpliceInside(a: seq<Byte>, pos: int, b: seq<Byte>, at: int, c: seq<Byte>)
    requires 0 <= pos <= |a| && 0 <= at && at + |c| <= |b|
    ensures Splice(Splice(a, pos, b), pos + at, c) == Splice(a, pos, Splice(b, at, c))
  {
  }

  lemma FillStep(t: State, name: string, v: Value)
    requires Ready(t) && !v.KindOf().Int128?
    requires KeyOf(name, TypeName(v.KindOf())) in t.table
    requires t.table[KeyOf(name, TypeName(v.KindOf()))] + |ValueBytes(t, v)| <= |t.bytes|
    ensures var key := KeyOf(name, TypeName(v.KindOf()));
      Step(t, Fill(name, v)) ==
      Outcome(t.(table := t.table - {key}, bytes := Splice(t.bytes, t.table[key], ValueBytes(t, v))), true)
  {
    var key := KeyOf(name, TypeName(v.KindOf()));
    EmitIsPut(t.(table := t.table - {key}, pos := t.table[key]), Chunks(t.sink, t.bigEndian, v));
  }

  lemma FindHole(base: int, table: map<string, int>, slots: seq<Slot>, name: string, kind: Kind) returns (i: nat)
    requires NamesHoles(base, table, slots) && KeyOf(name, TypeName(kind)) in table
    ensures i < |slots| && slots[i] == Hole(name, kind)
    ensures table[KeyOf(name, TypeName(kind))] == base + |Render(slots[..i])|
  {
    hide Render, KeyOf;
    i :| 0 <= i < |slots| && NamedBy(slots, i, KeyOf(name, TypeName(kind)));
    SameKey(name, kind, slots[i].name, slots[i].kind);
    assert HoleEntry(base, table, slots, i);
  }

  /** A fill of an outstanding name succeeds, keeps the cursor and completes just its own hole. */
  lemma FillKeepsLayout(s: State, t: State, slots: seq<Slot>, name: string, v: Value) returns (i: nat)
    requires LaidOut(s, t, slots) && Ready(t)
    requires v.WellTyped() && !v.KindOf().Int128?
    requires KeyOf(name, TypeName(v.KindOf())) in t.table
    ensures i < |slots| && slots[i] == Hole(name, v.KindOf())
    ensures |ValueBytes(s, v)| == |SlotBytes(slots[i])|
    ensures Step(t, Fill(name, v)).ok
    ensures LaidOut(s, Step(t, Fill(name, v)).s, slots[i := Done(ValueBytes(s, v))])
  {
    hide Splice, Render, Step, Flatten, Chunks, NamesHoles, KeyOf;
    i := FindHole(s.pos, t.table, slots, name, v.KindOf());
    var bs := ValueBytes(s, v);
    ChunksSize(s.sink, s.bigEndian, v);
    HoleSize(name, v.KindOf());
    SpliceSize(s.bytes, s.pos, Render(slots));
    RenderUpdate(slots, i, bs);
    FillStep(t, name, v);
    SpliceInside(s.bytes, s.pos, Render(slots), |Render(slots[..i])|, bs);
    NamesAfterFill(s.pos, t.table, slots, i, bs);
  }

  lemma SpliceSize(a: seq<Byte>, pos: int, b: seq<Byte>)
    requires 0 <= pos <= |a|
    ensures |Splice(a, pos, b)| == if pos + |b| <= |a| then |a| else pos + |b|
  {
  }

  // ----- Whole runs -----

  lemma ExpectedAfterAppend(s: State, slots: seq<Slot>, slot: Slot, ops: seq<Op>)
    requires ops != []
    requires !ops[0].Fill?
    requires ops[0].Write? ==> slot == Done(ValueBytes(s, ops[0].v))
    requires ops[0].Reserve? ==> slot == Hole(ops[0].name, ops[0].kind)
    ensures ResolveAll(s, slots + [slot], ops[1..]) + Expected(s, ops[1..]) == ResolveAll(s, slots, ops) + Expected(s, ops)
  {
    hide ValueBytes;
    var more := ResolveAll(s, slots + [slot], ops[1..]);
    assert more == ResolveAll(s, slots, ops) + [Resolve(s, slot, ops[1..])];
    assert Expected(s, ops) == [Resolve(s, slot, ops[1..])] + Expected(s, ops[1..]);
  }

  lemma ExpectedAfterFill(s: State, slots: seq<Slot>, i: nat, ops: seq<Op>)
    requires ops != [] && ops[0].Fill? && !ops[0].v.KindOf().Int128?
    requires i < |slots| && slots[i] == Hole(ops[0].name, ops[0].v.KindOf())
    requires forall j :: 0 <= j < |slots| && j != i ==> slots[j] != slots[i]
    ensures ResolveAll(s, slots[i := Done(ValueBytes(s, ops[0].v))], ops[1..]) + Expected(s, ops[1..])
         == ResolveAll(s, slots, ops) + Expected(s, ops)
  {
    hide ValueBytes;
    assert ResolveAll(s, slots[i := Done(ValueBytes(s, ops[0].v))], ops[1..]) == ResolveAll(s, slots, ops);
  }

  /** A run that does not throw leaves exactly the expected layout. */
  lemma {:induction false} RunLaysOut(s: State, t: State, slots: seq<Slot>, ops: seq<Op>)
    requires LaidOut(s, t, slots) && Ready(t) && WellFormed(ops)
    requires Run(t, ops).ok
    ensures LaidOut(s, Run(t, ops).s, ResolveAll(s, slots, ops) + Expected(s, ops))
    decreases |ops|
  {
    hide LaidOut, Ready, Expected, ResolveAll, ValueBytes, Step, Name.Key, KeyOf;
    if ops == [] {
      NothingLeft(s, slots);
      return;
    }
    var rest := ops[1..];
    var t' := Step(t, ops[0]).s;
    assert Run(t, ops) == Run(t', rest);
    match ops[0] {
      case Write(v) =>
        WriteKeepsLayout(s, t, slots, v);
        RunLaysOut(s, t', slots + [Done(ValueBytes(s, v))], rest);
        ExpectedAfterAppend(s, slots, Done(ValueBytes(s, v)), ops);
      case Reserve(name, kind) =>
        ReserveKeepsLayout(s, t, slots, name, kind);
        RunLaysOut(s, t', slots + [Hole(name, kind)], rest);
        ExpectedAfterAppend(s, slots, Hole(name, kind), ops);
      case Fill(name, v) =>
        FillNeedsName(t, name, v);
        var i := FillKeepsLayout(s, t, slots, name, v);
        RunLaysOut(s, t', slots[i := Done(ValueBytes(s, v))], rest);
        HolesDiffer(s, t, slots, i);
        ExpectedAfterFill(s, slots, i, ops);
    }
  }

  lemma NothingLeft(s: State, slots: seq<Slot>)
    ensures ResolveAll(s, slots, []) + Expected(s, []) == slots
  {
    assert ResolveAll(s, slots, []) == slots;
  }

  lemma FillNeedsName(t: State, name: string, v: Value)
    requires Ready(t) && !v.KindOf().Int128?
    ensures Step(t, Fill(name, v)).ok ==> KeyOf(name, TypeName(v.KindOf())) in t.table
  {
  }

  lemma HolesDiffer(s: State, t: State, slots: seq<Slot>, i: nat)
    requires LaidOut(s, t, slots) && i < |slots| && slots[i].Hole?
    ensures forall j :: 0 <= j < |slots| && j != i ==> slots[j] != slots[i]
  {
    hide Render;
  }

  /** A layout determines the state. */
  lemma LayoutDetermines(s: State, a: State, b: State, slots: seq<Slot>)
    requires LaidOut(s, a, slots) && LaidOut(s, b, slots)
    ensures a == b
  {
    hide Render;
    hide Splice;
    forall k | k in a.table
      ensures k in b.table && a.table[k] == b.table[k]
    {
      var i :| 0 <= i < |slots| && NamedBy(slots, i, k);
      assert HoleEntry(s.pos, a.table, slots, i) && HoleEntry(s.pos, b.table, slots, i);
    }
    forall k | k in b.table
      ensures k in a.table
    {
      var i :| 0 <= i < |slots| && NamedBy(slots, i, k);
      assert HoleEntry(s.pos, a.table, slots, i);
    }
    assert a.table == b.table;
  }

  lemma EmptyLayout(s: State)
    requires Ready(s) && s.table == map[]
    ensures LaidOut(s, s, [])
  {
    assert Splice(s.bytes, s.pos, []) == s.bytes;
  }

  // ----- When runs succeed -----

  /** The naming discipline: reserve only fresh names, fill only outstanding ones. */
  predicate Obeys(ops: seq<Op>, open: set<Name>) {
    ops == [] ||
    match ops[0]
    case Write(_) => Obeys(ops[1..], open)
    case Reserve(name, kind) => Name(name, kind) !in open && Obeys(ops[1..], open + {Name(name, kind)})
    case Fill(name, v) =>
      var p := Name(name, TakenKind(v.KindOf()));
      p in open && Obeys(ops[1..], open - {p})
  }

  /** Room taken by the writes and the reservations. */
  function Room(ops: seq<Op>): nat {
    if ops == [] then 0
    else Room(ops[1..]) + match ops[0]
      case Write(v) => v.KindOf().Size()
      case Reserve(_, kind) => kind.Size()
      case Fill(_, _) => 0
  }

  /** The open names are those the table holds. */
  ghost predicate OpenInTable(open: set<Name>, table: map<string, int>) {
    forall p: Name :: p in open <==> p.Key() in table
  }

  lemma OpenAfterReserve(open: set<Name>, table: map<string, int>, p: Name, at: int)
    requires OpenInTable(open, table)
    ensures OpenInTable(open + {p}, table[p.Key() := at])
  {
    forall q: Name ensures q.Key() == p.Key() <==> q == p {
      if q.Key() == p.Key() { KeyInjective(p, q); }
    }
  }

  lemma OpenAfterFill(open: set<Name>, table: map<string, int>, p: Name)
    requires OpenInTable(open, table)
    ensures OpenInTable(open - {p}, table - {p.Key()})
  {
    forall q: Name ensures q.Key() == p.Key() <==> q == p {
      if q.Key() == p.Key() { KeyInjective(p, q); }
    }
  }

  /** A write or a reservation succeeds exactly when its bytes fit, and takes up that room. */
  lemma WriteRoom(t: State, v: Value)
    requires Ready(t) && v.WellTyped()
    ensures Step(t, Write(v)).ok <==> Fits(t, v.KindOf().Size())
    ensures Step(t, Write(v)).ok ==> forall n: nat :: Fits(Step(t, Write(v)).s, n) <==> Fits(t, n + v.KindOf().Size())
  {
    EmitIsPut(t, Chunks(t.sink, t.bigEndian, v));
    ChunksSize(t.sink, t.bigEndian, v);
  }

  lemma ReserveRoom(t: State, name: string, kind: Kind)
    requires Ready(t) && Name(name, kind).Key() !in t.table
    ensures Step(t, Reserve(name, kind)).ok <==> Fits(t, kind.Size())
    ensures Step(t, Reserve(name, kind)).ok ==>
      && (forall n: nat :: Fits(Step(t, Reserve(name, kind)).s, n) <==> Fits(t, n + kind.Size()))
      && Step(t, Reserve(name, kind)).s.table == t.table[Name(name, kind).Key() := t.pos]
  {
    EmitIsPut(t.(table := t.table[KeyOf(name, TypeName(kind)) := t.pos]), Filler(kind.Size()));
    FillerBytes(kind.Size());
  }

  /** A run completes exactly when it obeys the naming discipline and everything it lays down fits. */
  lemma {:induction false} RunCompletes(s: State, t: State, slots: seq<Slot>, ops: seq<Op>, open: set<Name>)
    requires LaidOut(s, t, slots) && Ready(t) && WellFormed(ops) && OpenInTable(open, t.table)
    ensures Run(t, ops).ok <==> Obeys(ops, open) && Fits(t, Room(ops))
    decreases |ops|
  {
    hide LaidOut, OpenInTable, ValueBytes, Step, Fits, KeyOf, Name.Key, Filler, TypeName;
    LaidOutFits(s, t, slots);
    if ops == [] { return; }
    var rest := ops[1..];
    var t' := Step(t, ops[0]).s;
    match ops[0] {
      case Write(v) =>
        WriteRoom(t, v);
        LessRoom(t, Room(rest), v.KindOf().Size());
        if Step(t, ops[0]).ok {
          WriteKeepsLayout(s, t, slots, v);
          KeepsTable(t, v);
          RunCompletes(s, t', slots + [Done(ValueBytes(s, v))], rest, open);
        }
      case Reserve(name, kind) =>
        var p := Name(name, kind);
        InTable(open, t.table, p);
        LessRoom(t, Room(rest), kind.Size());
        if p in open {
          ReserveNeedsFresh(t, name, kind);
        } else {
          ReserveRoom(t, name, kind);
          if Step(t, ops[0]).ok {
            ReserveKeepsLayout(s, t, slots, name, kind);
            OpenAfterReserve(open, t.table, p, t.pos);
            RunCompletes(s, t', slots + [Hole(name, kind)], rest, open + {p});
          }
        }
      case Fill(name, v) =>
        var p := Name(name, v.KindOf());
        InTable(open, t.table, p);
        FillNeedsName(t, name, v);
        KeyIs(p);
        if p in open {
          var i := FillKeepsLayout(s, t, slots, name, v);
          OpenAfterFill(open, t.table, p);
          FillDropsName(t, name, v);
          RunCompletes(s, t', slots[i := Done(ValueBytes(s, v))], rest, open - {p});
          SameRoom(s, t, t', slots, slots[i := Done(ValueBytes(s, v))], i, ValueBytes(s, v));
          FitsSame(t, t', Room(rest));
        }
    }
  }

  lemma LaidOutFits(s: State, t: State, slots: seq<Slot>)
    requires LaidOut(s, t, slots)
    ensures Fits(t, 0)
  {
    hide Render;
  }

  lemma LessRoom(t: State, m: nat, n: nat)
    ensures Fits(t, m + n) ==> Fits(t, n)
  {
  }

  lemma FitsSame(t: State, t': State, n: nat)
    requires |t.bytes| == |t'.bytes| && t.pos == t'.pos && t.sink == t'.sink
    ensures Fits(t, n) == Fits(t', n)
  {
  }

  lemma KeepsTable(t: State, v: Value)
    requires Ready(t)
    ensures Step(t, Write(v)).s.table == t.table
  {
  }

  lemma KeyIs(p: Name)
    ensures p.Key() == KeyOf(p.name, TypeName(p.kind))
  {
  }

  lemma ReserveNeedsFresh(t: State, name: string, kind: Kind)
    requires Ready(t) && Name(name, kind).Key() in t.table
    ensures !Step(t, Reserve(name, kind)).ok
  {
  }

  lemma FillDropsName(t: State, name: string, v: Value)
    requires Ready(t) && !v.KindOf().Int128?
    requires Step(t, Fill(name, v)).ok
    ensures Step(t, Fill(name, v)).s.table == t.table - {KeyOf(name, TypeName(v.KindOf()))}
  {
  }

  lemma InTable(open: set<Name>, table: map<string, int>, p: Name)
    requires OpenInTable(open, table)
    ensures p in open <==> p.Key() in table
  {
  }

  lemma SameRoom(s: State, t: State, t': State, slots: seq<Slot>, slots': seq<Slot>, i: nat, bs: seq<Byte>)
    requires LaidOut(s, t, slots) && LaidOut(s, t', slots')
    requires i < |slots| && |bs| == |SlotBytes(slots[i])| && slots' == slots[i := Done(bs)]
    ensures |t.bytes| == |t'.bytes| && t.pos == t'.pos && t.sink == t'.sink
  {
    RenderUpdate(slots, i, bs);
    SpliceSize(s.bytes, s.pos, Render(slots));
    SpliceSize(s.bytes, s.pos, Render(slots'));
  }

  // ----- The moved program -----

  lemma {:induction false} DirectHasNoFill(ops: seq<Op>, p: Name)
    ensures forall i :: 0 <= i < |Direct(ops)| ==> !Direct(ops)[i].Fill?
    ensures FirstFill(Direct(ops), p) == None
  {
    if ops != [] {
      DirectHasNoFill(ops[1..], p);
      assert Direct(ops) == Direct(ops[1..]) || Direct(ops)[1..] == Direct(ops[1..]);
    }
  }

  lemma {:induction false} FirstFillOf(ops: seq<Op>, p: Name)
    requires WellTypedOps(ops)
    ensures match FirstFill(ops, p)
      case Some(v) =>
        && v.WellTyped() && TakenKind(v.KindOf()) == p.kind
        && (exists i :: 0 <= i < |ops| && Fills(ops[i], p) && ops[i].v == v)
      case None => forall i :: 0 <= i < |ops| ==> !Fills(ops[i], p)
  {
    if ops != [] && !Fills(ops[0], p) {
      FirstFillOf(ops[1..], p);
      assert forall i :: 1 <= i < |ops| ==> ops[i] == ops[1..][i - 1];
    }
  }

  lemma {:induction false} DirectWellFormed(ops: seq<Op>)
    requires WellTypedOps(ops)
    ensures WellFormed(Direct(ops))
  {
    if ops != [] {
      DirectWellFormed(ops[1..]);
      if ops[0].Reserve? { FirstFillOf(ops[1..], Name(ops[0].name, ops[0].kind)); }
      assert Direct(ops) == Direct(ops[1..]) || Direct(ops) == [Direct(ops)[0]] + Direct(ops[1..]);
    }
  }

  lemma {:induction false} DirectLaysOutTheSame(s: State, ops: seq<Op>)
    ensures Expected(s, Direct(ops)) == Expected(s, ops)
  {
    hide ValueBytes;
    if ops != [] {
      DirectLaysOutTheSame(s, ops[1..]);
      if Direct(ops) != Direct(ops[1..]) {
        assert Direct(ops)[1..] == Direct(ops[1..]);
      }
      if ops[0].Reserve? { DirectHasNoFill(ops[1..], Name(ops[0].name, ops[0].kind)); }
    }
  }

  lemma {:induction false} DirectRoom(ops: seq<Op>)
    requires WellTypedOps(ops)
    ensures Room(Direct(ops)) >= Room(ops)
    ensures NoInt128Fill(ops) ==> Room(Direct(ops)) == Room(ops)
  {
    if ops != [] {
      DirectRoom(ops[1..]);
      if Direct(ops) != Direct(ops[1..]) {
        assert Direct(ops)[1..] == Direct(ops[1..]);
      }
      if ops[0].Reserve? { FirstFillOf(ops[1..], Name(ops[0].name, ops[0].kind)); }
    }
  }

  /** The names still open that the rest of the program never fills. */
  function NeverFilled(open: set<Name>, ops: seq<Op>): set<Name> {
    set p | p in open && FirstFill(ops, p).None?
  }

  lemma {:induction false} DirectObeys(ops: seq<Op>, open: set<Name>)
    requires Obeys(ops, open)
    ensures Obeys(Direct(ops), NeverFilled(open, ops))
  {
    if ops == [] { return; }
    var rest := ops[1..];
    match ops[0] {
      case Write(v) =>
        DirectObeys(rest, open);
        assert Direct(ops)[1..] == Direct(rest);
        assert NeverFilled(open, ops) == NeverFilled(open, rest);
      case Reserve(name, kind) =>
        var p := Name(name, kind);
        DirectObeys(rest, open + {p});
        assert Direct(ops)[1..] == Direct(rest);
        if FirstFill(rest, p).None? {
          assert NeverFilled(open, ops) + {p} == NeverFilled(open + {p}, rest);
        } else {
          assert NeverFilled(open, ops) == NeverFilled(open + {p}, rest);
        }
      case Fill(name, v) =>
        var p := Name(name, TakenKind(v.KindOf()));
        DirectObeys(rest, open - {p});
        assert NeverFilled(open, ops) == NeverFilled(open - {p}, rest);
    }
  }

  /** Any run that completes obeyed the discipline, left the table naming exactly the open
      reservations, and moved the cursor by the room its writes and reservations take. */
  lemma {:induction false} RunObeys(t: State, ops: seq<Op>, open: set<Name>)
    requires Ready(t) && WellTypedOps(ops) && OpenInTable(open, t.table) && Run(t, ops).ok
    ensures Obeys(ops, open)
    ensures OpenInTable(OpenAfter(ops, open), Run(t, ops).s.table)
    ensures Run(t, ops).s.pos == t.pos + Room(ops)
    decreases |ops|
  {
    hide OpenInTable, Step;
    if ops == [] { return; }
    var t' := Step(t, ops[0]).s;
    match ops[0] {
      case Write(v) =>
        StepCursor(t, ops[0]);
        KeepsTable(t, v);
        RunObeys(t', ops[1..], open);
      case Reserve(name, kind) =>
        var p := Name(name, kind);
        StepCursor(t, ops[0]);
        StepNames(t, ops[0], p);
        InTable(open, t.table, p);
        OpenAfterReserve(open, t.table, p, t.pos);
        RunObeys(t', ops[1..], open + {p});
      case Fill(name, v) =>
        var p := Name(name, TakenKind(v.KindOf()));
        StepCursor(t, ops[0]);
        StepNames(t, ops[0], p);
        InTable(open, t.table, p);
        OpenAfterFill(open, t.table, p);
        RunObeys(t', ops[1..], open - {p});
    }
  }

  lemma StepCursor(t: State, op: Op)
    requires Ready(t) && Step(t, op).ok && (!op.Reserve? ==> op.v.WellTyped())
    ensures Step(t, op).s.pos == t.pos + Room([op])
  {
    assert [op][1..] == [];
    match op
    case Write(v) => EmitIsPut(t, Chunks(t.sink, t.bigEndian, v)); ChunksSize(t.sink, t.bigEndian, v);
    case Reserve(name, kind) =>
      EmitIsPut(t.(table := t.table[KeyOf(name, TypeName(kind)) := t.pos]), Filler(kind.Size()));
      FillerBytes(kind.Size());
    case Fill(_, _) =>
  }

  lemma StepNames(t: State, op: Op, p: Name)
    requires Ready(t) && Step(t, op).ok
    requires op == Reserve(p.name, p.kind) || Fills(op, p)
    ensures op.Reserve? ==> p.Key() !in t.table && Step(t, op).s.table == t.table[p.Key() := t.pos]
    ensures op.Fill? ==> p.Key() in t.table && Step(t, op).s.table == t.table - {p.Key()}
  {
  }

  // ----- Outstanding reservations -----

  function OpenAfter(ops: seq<Op>, open: set<Name>): set<Name> {
    if ops == [] then open
    else match ops[0]
      case Write(_) => OpenAfter(ops[1..], open)
      case Reserve(name, kind) => OpenAfter(ops[1..], open + {Name(name, kind)})
      case Fill(name, v) => OpenAfter(ops[1..], open - {Name(name, TakenKind(v.KindOf()))})
  }

  /** `p` was reserved at some point and not filled after it. */
  ghost predicate Outstanding(ops: seq<Op>, p: Name) {
    exists i :: 0 <= i < |ops| && ops[i] == Reserve(p.name, p.kind) && NotFilledFrom(ops, i, p)
  }

  ghost predicate NotFilledFrom(ops: seq<Op>, i: int, p: Name) {
    forall j :: i < j < |ops| && 0 <= j ==> !Fills(ops[j], p)
  }

  lemma {:induction false} OpenAfterIsOutstanding(ops: seq<Op>, open: set<Name>, p: Name)
    ensures p in OpenAfter(ops, open) <==> Outstanding(ops, p) || (p in open && NotFilledFrom(ops, -1, p))
  {
    if ops == [] { return; }
    var rest := ops[1..];
    var open' := match ops[0]
      case Write(_) => open
      case Reserve(name, kind) => open + {Name(name, kind)}
      case Fill(name, v) => open - {Name(name, TakenKind(v.KindOf()))};
    OpenAfterIsOutstanding(rest, open', p);
    NotFilledShift(ops, -1, p);
    if Outstanding(rest, p) {
      var i :| 0 <= i < |rest| && rest[i] == Reserve(p.name, p.kind) && NotFilledFrom(rest, i, p);
      NotFilledShift(ops, i, p);
      assert ops[i + 1] == Reserve(p.name, p.kind) && NotFilledFrom(ops, i + 1, p);
    }
    if Outstanding(ops, p) {
      var i :| 0 <= i < |ops| && ops[i] == Reserve(p.name, p.kind) && NotFilledFrom(ops, i, p);
      if i > 0 {
        NotFilledShift(ops, i - 1, p);
        assert rest[i - 1] == Reserve(p.name, p.kind) && NotFilledFrom(rest, i - 1, p);
      }
    }
  }

  lemma NotFilledShift(ops: seq<Op>, i: int, p: Name)
    requires ops != [] && i >= -1
    ensures NotFilledFrom(ops[1..], i, p) <==> (forall j :: i + 1 < j < |ops| ==> !Fills(ops[j], p))
  {
    var rest := ops[1..];
    if NotFilledFrom(rest, i, p) {
      forall j | i + 1 < j < |ops| ensures !Fills(ops[j], p) {
        assert ops[j] == rest[j - 1];
      }
    } else {
      var j :| i < j < |rest| && 0 <= j && Fills(rest[j], p);
      assert ops[j + 1] == rest[j];
    }
  }

  /** The string table refines a set of (name, kind) pairs: after any run that completes, a key is present
      exactly when its pair was reserved and not filled since. */
  lemma OutstandingExact(s: State, ops: seq<Op>, p: Name)
    requires Ready(s) && s.table == map[] && WellTypedOps(ops) && Run(s, ops).ok
    ensures p.Key() in Run(s, ops).s.table <==> Outstanding(ops, p)
  {
    RunObeys(s, ops, {});
    OpenAfterIsOutstanding(ops, {}, p);
    InTable(OpenAfter(ops, {}), Run(s, ops).s.table, p);
  }

  /** Every key in the table is the key of some pair. */
  lemma {:induction false} KeysAreNamed(s: State, ops: seq<Op>)
    requires Ready(s) && forall k :: k in s.table ==> exists p: Name :: p.Key() == k
    ensures forall k :: k in Run(s, ops).s.table ==> exists p: Name :: p.Key() == k
    decreases |ops|
  {
    if ops != [] {
      var t := Step(s, ops[0]).s;
      if ops[0].Reserve? {
        assert Name(ops[0].name, ops[0].kind).Key() == KeyOf(ops[0].name, TypeName(ops[0].kind));
      }
      assert forall k :: k in t.table ==> exists p: Name :: p.Key() == k;
      hide Step;
      KeysAreNamed(t, ops[1..]);
    }
  }

  // ----- Main results -----

  lemma {:induction false} Int128Widens(ops: seq<Op>, open: set<Name>)
    requires Obeys(ops, open) && WellTypedOps(ops) && !NoInt128Fill(ops)
    requires forall p :: p in open && FirstFill(ops, p).Some? ==> !FirstFill(ops, p).value.KindOf().Int128?
    ensures Room(Direct(ops)) > Room(ops)
  {
    var rest := ops[1..];
    if Direct(ops) != Direct(rest) {
      assert Direct(ops)[1..] == Direct(rest);
    }
    NotFirstFilled(ops, open);
    hide NoInt128Fill;
    match ops[0] {
      case Write(_) =>
        Int128Widens(rest, open);
      case Reserve(name, kind) =>
        var p := Name(name, kind);
        FirstFillOf(rest, p);
        DirectRoom(rest);
        if FirstFill(rest, p).None? || !FirstFill(rest, p).value.KindOf().Int128? {
          Int128Widens(rest, open + {p});
        }
      case Fill(name, v) =>
        Int128Widens(rest, open - {Name(name, TakenKind(v.KindOf()))});
    }
  }

  lemma NotFirstFilled(ops: seq<Op>, open: set<Name>)
    requires Obeys(ops, open) && !NoInt128Fill(ops)
    requires forall p :: p in open && FirstFill(ops, p).Some? ==> !FirstFill(ops, p).value.KindOf().Int128?
    ensures ops != [] && !IsInt128Fill(ops[0]) && !NoInt128Fill(ops[1..])
  {
    var i :| 0 <= i < |ops| && IsInt128Fill(ops[i]);
    assert i > 0 ==> ops[1..][i - 1] == ops[i];
  }

  /** Take any run of writes, reservations and fills that does not throw, from a writer with no reservation
      outstanding. Moving every fill to its reservation gives the same bytes, cursor and table, exactly
      when no 128-bit signed fill takes part. */
  lemma DeferredEqualsDirect(s: State, ops: seq<Op>)
    requires Ready(s) && s.table == map[] && WellTypedOps(ops) && Run(s, ops).ok
    ensures Run(s, Direct(ops)) == Run(s, ops) <==> NoInt128Fill(ops)
  {
    NoneOpen(s);
    RunObeys(s, ops, {});
    DirectWellFormed(ops);
    DirectRoom(ops);
    if NoInt128Fill(ops) {
      EmptyLayout(s);
      RunCompletes(s, s, [], ops, {});
      DirectObeys(ops, {});
      RunCompletes(s, s, [], Direct(ops), {});
      assert NeverFilled({}, ops) == {};
      BothLayouts(s, ops);
    } else {
      Int128Widens(ops, {});
      if Run(s, Direct(ops)).ok {
        RunObeys(s, Direct(ops), {});
      }
    }
  }

  lemma NoneOpen(s: State)
    requires s.table == map[]
    ensures OpenInTable({}, s.table)
  {
  }

  lemma BothLayouts(s: State, ops: seq<Op>)
    requires Ready(s) && s.table == map[] && WellFormed(ops) && WellFormed(Direct(ops))
    requires Run(s, ops).ok && Run(s, Direct(ops)).ok
    ensures Run(s, Direct(ops)).s == Run(s, ops).s
  {
    hide LaidOut, Ready, Run, Direct, Expected;
    EmptyLayout(s);
    RunLaysOut(s, s, [], ops);
    RunLaysOut(s, s, [], Direct(ops));
    DirectLaysOutTheSame(s, ops);
    LayoutDetermines(s, Run(s, Direct(ops)).s, Run(s, ops).s, ResolveAll(s, [], ops) + Expected(s, ops));
  }

  /** A run without 128-bit signed fills, from a writer with no reservation outstanding, completes exactly
      when every reservation is of a fresh name, every fill of an outstanding one, and all of it fits. */
  lemma CompletesExactly(s: State, ops: seq<Op>)
    requires Ready(s) && s.table == map[] && WellFormed(ops)
    ensures Run(s, ops).ok <==> Obeys(ops, {}) && Fits(s, Room(ops))
  {
    EmptyLayout(s);
    NoneOpen(s);
    RunCompletes(s, s, [], ops, {});
  }

  /** The canonical bytes of the values a program of writes writes. */
  function Encodings(bigEndian: bool, ops: seq<Op>): seq<Byte> {
    if ops == [] then []
    else (if ops[0].Write? then Encode(bigEndian, ops[0].v) else []) + Encodings(bigEndian, ops[1..])
  }

  lemma {:induction false} WritesAreEncodings(s: State, ops: seq<Op>)
    requires Ready(s) && (forall i :: 0 <= i < |ops| ==> ops[i].Write?) && Run(s, ops).ok
    ensures Run(s, ops).s == Put(s, Encodings(StoredOrder(s.sink, s.bigEndian), ops))
    decreases |ops|
  {
    hide Splice, Encode, Chunks;
    if ops == [] {
      PutTwice(s, [], []);
    } else {
      var v := ops[0].v;
      ChunksAreEncoding(s.sink, s.bigEndian, v);
      EmitIsPut(s, Chunks(s.sink, s.bigEndian, v));
      WritesAreEncodings(Step(s, ops[0]).s, ops[1..]);
      PutTwice(s, ValueBytes(s, v), Encodings(StoredOrder(s.sink, s.bigEndian), ops[1..]));
    }
  }

  lemma {:induction false} UnfilledStaysOutstanding(ops: seq<Op>)
    ensures (forall p :: !Outstanding(ops, p)) ==> forall i :: 0 <= i < |Direct(ops)| ==> Direct(ops)[i].Write?
  {
    if ops == [] || exists p :: Outstanding(ops, p) { return; }
    var rest := ops[1..];
    if Direct(ops) != Direct(rest) {
      assert Direct(ops)[1..] == Direct(rest);
    }
    forall p ensures !Outstanding(rest, p) {
      OpenAfterIsOutstanding(rest, {}, p);
      OpenGrows(rest, {}, match ops[0]
        case Write(_) => {}
        case Reserve(name, kind) => {Name(name, kind)}
        case Fill(_, _) => {}, p);
      OpenAfterIsOutstanding(ops, {}, p);
    }
    UnfilledStaysOutstanding(rest);
    if ops[0].Reserve? {
      var p := Name(ops[0].name, ops[0].kind);
      OpenAfterIsOutstanding(ops, {}, p);
      OpenAfterIsOutstanding(rest, {p}, p);
      NoFillNone(rest, p);
    }
  }

  lemma OpenGrows(ops: seq<Op>, a: set<Name>, b: set<Name>, p: Name)
    requires a <= b
    ensures p in OpenAfter(ops, a) ==> p in OpenAfter(ops, b)
  {
    OpenAfterIsOutstanding(ops, a, p);
    OpenAfterIsOutstanding(ops, b, p);
  }

  lemma {:induction false} NoFillNone(ops: seq<Op>, p: Name)
    ensures FirstFill(ops, p).None? ==> NotFilledFrom(ops, -1, p)
  {
    if ops != [] && !Fills(ops[0], p) {
      NoFillNone(ops[1..], p);
      NotFilledShift(ops, -1, p);
    }
  }

  /** When nothing is left outstanding the moved program only writes, so the region written holds the encodings
      of the values in the order of their places, and nothing else changed. */
  lemma FilledRunIsPlainWriting(s: State, ops: seq<Op>)
    requires Ready(s) && s.table == map[] && WellFormed(ops) && Run(s, ops).ok
    requires Run(s, ops).s.table == map[]
    ensures forall i :: 0 <= i < |Direct(ops)| ==> Direct(ops)[i].Write?
    ensures Run(s, ops).s == Put(s, Encodings(StoredOrder(s.sink, s.bigEndian), Direct(ops)))
  {
    forall p ensures !Outstanding(ops, p) {
      OutstandingExact(s, ops, p);
    }
    UnfilledStaysOutstanding(ops);
    DeferredEqualsDirect(s, ops);
    WritesAreEncodings(s, Direct(ops));
  }

  /** Reserving and at once filling a value of the same kind completes for every kind but Int128. */
  lemma ReserveThenFill(s: State, name: string, v: Value)
    requires Ready(s) && s.table == map[] && v.WellTyped() && Fits(s, v.KindOf().Size())
    ensures Run(s, [Reserve(name, v.KindOf()), Fill(name, v)]).ok <==> !v.KindOf().Int128?
  {
    hide Run, Step, Ready, Fits;
    var ops := [Reserve(name, v.KindOf()), Fill(name, v)];
    assert ops[1..] == [Fill(name, v)] && ops[1..][1..] == [];
    if v.KindOf().Int128? {
      NoneOpen(s);
      if Run(s, ops).ok { RunObeys(s, ops, {}); }
    } else {
      CompletesExactly(s, ops);
      assert Room([Fill(name, v)]) == 0;
      assert Obeys([Fill(name, v)], {Name(name, v.KindOf())});
      assert {} + {Name(name, v.KindOf())} == {Name(name, v.KindOf())};
    }
  }

  /** An Int128 fill that finds an Int64 reservation of the same name runs over the value written next. */
  lemma Int128FillOverruns(s: State, name: string, next: Value, v: Value)
    requires Ready(s) && s.table == map[] && Fits(s, 16)
    requires next.WellTyped() && next.KindOf().Size() == 8 && v.WellTyped() && v.KindOf().Int128?
    ensures Run(s, [Reserve(name, Int64), Write(next), Fill(name, v)])
         == Outcome(Put(s, Encode(StoredOrder(s.sink, s.bigEndian), v)), true)
  {
    hide Splice, Flatten, Filler, Chunks, Step, Run;
    var t, written := ReserveAndWrite(s, name, next);
    OverrunStep(s, t, name, v, written);
    RunOne(t, Fill(name, v));
    RunFirst(s, [Reserve(name, Int64), Write(next), Fill(name, v)]);
    var s1 := Step(s, Reserve(name, Int64)).s;
    assert [Reserve(name, Int64), Write(next), Fill(name, v)][1..] == [Write(next), Fill(name, v)];
    RunFirst(s1, [Write(next), Fill(name, v)]);
    assert [Write(next), Fill(name, v)][1..] == [Fill(name, v)];
  }

  lemma RunFirst(s: State, ops: seq<Op>)
    requires Ready(s) && ops != []
    ensures Step(s, ops[0]).ok ==> Run(s, ops) == Run(Step(s, ops[0]).s, ops[1..])
  {
  }

  lemma RunOne(s: State, op: Op)
    requires Ready(s)
    ensures Run(s, [op]) == Step(s, op)
  {
    assert [op][1..] == [];
  }

  lemma ReserveAndWrite(s: State, name: string, next: Value) returns (t: State, written: seq<Byte>)
    requires Ready(s) && s.table == map[] && Fits(s, 16)
    requires next.WellTyped() && next.KindOf().Size() == 8
    ensures |written| == 16 && t == Put(s.(table := map[KeyOf(name, TypeName(Int64)) := s.pos]), written)
    ensures var first := Step(s, Reserve(name, Int64));
      first.ok && Step(first.s, Write(next)) == Outcome(t, true)
  {
    hide Splice, Flatten, Filler, Chunks;
    var hole, nextBytes := Flatten(Filler(8)), ValueBytes(s, next);
    FillerBytes(8);
    ChunksSize(s.sink, s.bigEndian, next);
    var s1 := s.(table := map[KeyOf(name, TypeName(Int64)) := s.pos]);
    assert s.table[KeyOf(name, TypeName(Int64)) := s.pos] == s1.table;
    EmitIsPut(s1, Filler(8));
    EmitIsPut(Put(s1, hole), Chunks(s.sink, s.bigEndian, next));
    PutTwice(s1, hole, nextBytes);
    written := hole + nextBytes;
    t := Put(s1, written);
  }

  lemma OverrunStep(s: State, t: State, name: string, v: Value, written: seq<Byte>)
    requires Ready(s) && s.table == map[] && Fits(s, 16) && |written| == 16
    requires v.WellTyped() && v.KindOf().Int128?
    requires t == Put(s.(table := map[KeyOf(name, TypeName(Int64)) := s.pos]), written)
    ensures Ready(t)
    ensures Step(t, Fill(name, v)) == Outcome(Put(s, Encode(StoredOrder(s.sink, s.bigEndian), v)), true)
  {
    var bs := ValueBytes(s, v);
    ChunksSize(s.sink, s.bigEndian, v);
    ChunksAreEncoding(s.sink, s.bigEndian, v);
    var key := KeyOf(name, TypeName(Int64));
    assert t.table - {key} == map[];
    EmitIsPut(t.(table := map[], pos := s.pos), Chunks(s.sink, s.bigEndian, v));
    SpliceOver(s.bytes, s.pos, written, bs);
  }

  lemma SpliceOver(a: seq<Byte>, pos: int, b: seq<Byte>, c: seq<Byte>)
    requires 0 <= pos <= |a| && |b| == |c|
    ensures Splice(Splice(a, pos, b), pos, c) == Splice(a, pos, c)
  {
  }
}
