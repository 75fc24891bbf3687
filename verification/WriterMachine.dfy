/** What the writers do to their state, step by step: writing pieces at the cursor, reserving space
    under a name and filling it later. Both writer classes are proved to take exactly these steps. */
module WriterMachine {
  import opened ByteOrder
  import opened TypedValues

  datatype State = State(
    sink: Sink,
    bytes: seq<Byte>,
    pos: int,
    bigEndian: bool,
    table: map<string, int>,
    steps: seq<int>)

  /** `ok` is false when the call threw; `s` is the state it left behind either way. */
  datatype Outcome = Outcome(s: State, ok: bool)

  datatype Op =
    | Write(v: Value)
    | Reserve(name: string, kind: Kind)
    | Fill(name: string, v: Value)

  ghost predicate Ready(s: State) {
    && 0 <= s.pos <= |s.bytes|
    && forall k :: k in s.table ==> 0 <= s.table[k] <= |s.bytes|
  }

  /** A memory region has a fixed end; a stream grows. */
  predicate Fits(s: State, n: nat) {
    s.sink.Stream? || s.pos + n <= |s.bytes|
  }

  function Splice(bytes: seq<Byte>, pos: int, bs: seq<Byte>): (r: seq<Byte>)
    requires 0 <= pos <= |bytes|
    ensures |r| >= |bytes| && pos + |bs| <= |r|
  {
    bytes[..pos] + bs + if pos + |bs| <= |bytes| then bytes[pos + |bs|..] else []
  }

  function Put(s: State, bs: seq<Byte>): State
    requires Ready(s)
  {
    s.(bytes := Splice(s.bytes, s.pos, bs), pos := s.pos + |bs|)
  }

  /** Write the pieces in turn until one does not fit. */
  function Emit(s: State, chunks: seq<seq<Byte>>): (r: Outcome)
    requires Ready(s)
    ensures Ready(r.s) && r.s == s.(bytes := r.s.bytes, pos := r.s.pos)
    ensures |r.s.bytes| >= |s.bytes|
    decreases |chunks|
  {
    if chunks == [] then Outcome(s, true)
    else if !Fits(s, |chunks[0]|) then Outcome(s, false)
    else Emit(Put(s, chunks[0]), chunks[1..])
  }

  /** The bytes a value takes up, in the order the sink stores them. */
  function ValueBytes(s: State, v: Value): seq<Byte> {
    Flatten(Chunks(s.sink, s.bigEndian, v))
  }

  // ----- Names of reservations -----

  function TypeName(k: Kind): string {
    match k
    case SByte => "SByte"
    case UByte => "Byte"
    case Int16 => "Int16"
    case UInt16 => "UInt16"
    case Int32 => "Int32"
    case UInt32 => "UInt32"
    case Int64 => "Int64"
    case UInt64 => "UInt64"
    case Int128 => "Int128"
    case UInt128 => "UInt128"
    case Half => "Half"
    case Single => "Single"
    case Double => "Double"
    case Boolean => "Boolean"
    case Vector2 => "Vector2"
    case Vector3 => "Vector3"
    case Vector4 => "Vector4"
    case Quaternion => "Quaternion"
  }

  /** The kind whose reservation a fill takes: `FillInt128` asks for an Int64 reservation. */
  function TakenKind(k: Kind): Kind {
    if k.Int128? then Int64 else k
  }

  function KeyOf(name: string, typeName: string): string {
    name + ":" + typeName
  }

  datatype Name = Name(name: string, kind: Kind) {
    function Key(): string {
      KeyOf(name, TypeName(kind))
    }
  }

  function Filler(n: nat): seq<seq<Byte>> {
    seq(n, _ => [0xFE])
  }

  // ----- Steps and runs -----

  function StepReserve(s: State, name: string, typeName: string, length: nat): (r: Outcome)
    requires Ready(s)
    ensures Ready(r.s)
  {
    var key := KeyOf(name, typeName);
    if key in s.table then Outcome(s, false)
    else Emit(s.(table := s.table[key := s.pos]), Filler(length))
  }

  function StepFill(s: State, name: string, typeName: string, v: Value): (r: Outcome)
    requires Ready(s)
    ensures Ready(r.s)
  {
    var key := KeyOf(name, typeName);
    if key !in s.table then Outcome(s, false)
    else
      var written := Emit(s.(table := s.table - {key}, pos := s.table[key]), Chunks(s.sink, s.bigEndian, v));
      if written.ok then Outcome(written.s.(pos := s.pos), true) else written
  }

  function Step(s: State, op: Op): (r: Outcome)
    requires Ready(s)
    ensures Ready(r.s)
  {
    match op
    case Write(v) => Emit(s, Chunks(s.sink, s.bigEndian, v))
    case Reserve(name, kind) => StepReserve(s, name, TypeName(kind), kind.Size())
    case Fill(name, v) => StepFill(s, name, TypeName(TakenKind(v.KindOf())), v)
  }

  /** Run until a call throws. */
  function Run(s: State, ops: seq<Op>): (r: Outcome)
    requires Ready(s)
    ensures Ready(r.s)
    decreases |ops|
  {
    if ops == [] then Outcome(s, true)
    else
      var first := Step(s, ops[0]);
      if first.ok then Run(first.s, ops[1..]) else first
  }

  // ----- Emitting pieces -----

  lemma PutTwice(s: State, a: seq<Byte>, b: seq<Byte>)
    requires Ready(s)
    ensures Ready(Put(s, a)) && |Put(s, a).bytes| >= |s.bytes|
    ensures Put(Put(s, a), b) == Put(s, a + b)
    ensures Put(s, []) == s
  {
    var once := Splice(s.bytes, s.pos, a);
    assert Splice(once, s.pos + |a|, b) == Splice(s.bytes, s.pos, a + b);
    assert Splice(s.bytes, s.pos, []) == s.bytes;
  }

  lemma FitsTwice(s: State, a: seq<Byte>, n: nat)
    requires Ready(s) && Fits(s, |a|)
    ensures Fits(Put(s, a), n) <==> Fits(s, |a| + n)
  {
  }

  /** Pieces succeed exactly when their concatenation fits, and then write exactly that. */
  lemma {:induction false} EmitIsPut(s: State, chunks: seq<seq<Byte>>)
    requires Ready(s)
    ensures Emit(s, chunks).ok <==> Fits(s, |Flatten(chunks)|)
    ensures Emit(s, chunks).ok ==> Emit(s, chunks).s == Put(s, Flatten(chunks))
    decreases |chunks|
  {
    hide Splice, Put;
    if chunks == [] {
      PutTwice(s, [], []);
    } else {
      var head, tail := chunks[0], chunks[1..];
      assert Flatten(chunks) == head + Flatten(tail);
      PutTwice(s, head, Flatten(tail));
      if Fits(s, |head|) {
        EmitIsPut(Put(s, head), tail);
        FitsTwice(s, head, |Flatten(tail)|);
      }
    }
  }

  /** Emitting that does not complete has written the pieces before the first that does not fit, and nothing else. */
  lemma {:induction false} EmitStops(s: State, chunks: seq<seq<Byte>>, n: nat)
    requires Ready(s) && n < |chunks|
    requires Fits(s, |Flatten(chunks[..n])|) && !Fits(s, |Flatten(chunks[..n])| + |chunks[n]|)
    ensures Emit(s, chunks) == Outcome(Put(s, Flatten(chunks[..n])), false)
    decreases n
  {
    hide Splice;
    if n == 0 {
      PutTwice(s, [], []);
    } else {
      assert chunks[..n][0] == chunks[0] && chunks[..n][1..] == chunks[1..][..n - 1];
      var first, rest := chunks[0], Flatten(chunks[1..][..n - 1]);
      PutTwice(s, first, rest);
      FitsTwice(s, first, |rest|);
      FitsTwice(s, first, |rest| + |chunks[n]|);
      EmitStops(Put(s, first), chunks[1..], n - 1);
    }
  }

  lemma {:induction false} EmitAppend(s: State, a: seq<seq<Byte>>, b: seq<seq<Byte>>)
    requires Ready(s)
    ensures Emit(s, a + b) == if Emit(s, a).ok then Emit(Emit(s, a).s, b) else Emit(s, a)
    decreases |a|
  {
    if a == [] {
      assert a + b == b;
    } else if Fits(s, |a[0]|) {
      assert (a + b)[1..] == a[1..] + b;
      EmitAppend(Put(s, a[0]), a[1..], b);
    }
  }

  /** A prefix of the pieces that fails makes the whole fail in the same state. */
  lemma EmitPrefixFails(s: State, chunks: seq<seq<Byte>>, n: nat)
    requires Ready(s) && n <= |chunks|
    requires !Emit(s, chunks[..n]).ok
    ensures Emit(s, chunks) == Emit(s, chunks[..n])
  {
    hide Emit, Splice;
    assert chunks == chunks[..n] + chunks[n..];
    EmitAppend(s, chunks[..n], chunks[n..]);
  }

  /** One more piece. */
  lemma EmitOneMore(s: State, chunks: seq<seq<Byte>>, n: nat)
    requires Ready(s) && n < |chunks|
    requires Emit(s, chunks[..n]).ok
    ensures Emit(s, chunks[..n + 1]) == Emit(Emit(s, chunks[..n]).s, [chunks[n]])
  {
    hide Emit, Splice;
    assert chunks[..n + 1] == chunks[..n] + [chunks[n]];
    EmitAppend(s, chunks[..n], [chunks[n]]);
  }

  lemma EmitNothing(s: State)
    requires Ready(s)
    ensures Emit(s, []) == Outcome(s, true)
  {
  }

  lemma EmitOne(s: State, bs: seq<Byte>)
    requires Ready(s)
    ensures Emit(s, [bs]) == if Fits(s, |bs|) then Outcome(Put(s, bs), true) else Outcome(s, false)
  {
    assert [bs][1..] == [];
  }

  lemma {:induction false} FillerBytes(n: nat)
    ensures Flatten(Filler(n)) == seq(n, _ => 0xFE as Byte)
  {
    if n > 0 {
      assert Filler(n)[1..] == Filler(n - 1);
      FillerBytes(n - 1);
    }
  }

  // ----- Keys -----

  lemma LastColon(a: string, b: string, s: string, t: string)
    requires a + ":" + s == b + ":" + t && ':' !in s && ':' !in t
    ensures a == b && s == t
  {
    var w := a + ":" + s;
    assert w[|a|] == ':' && w[|b|] == ':';
    assert forall i :: |a| < i < |w| ==> w[i] == s[i - |a| - 1];
    assert forall i :: |b| < i < |w| ==> w[i] == t[i - |b| - 1];
    assert |a| == |b|;
    assert a == w[..|a|] && b == w[..|a|];
    assert s == w[|a| + 1..] && t == w[|a| + 1..];
  }

  /** Recovers the kind from its type name; only the lemma below needs it. */
  ghost function KindNamed(t: string): Kind {
    if t == "SByte" then SByte else if t == "Byte" then UByte
    else if t == "Int16" then Int16 else if t == "UInt16" then UInt16
    else if t == "Int32" then Int32 else if t == "UInt32" then UInt32
    else if t == "Int64" then Int64 else if t == "UInt64" then UInt64
    else if t == "Int128" then Int128 else if t == "UInt128" then UInt128
    else if t == "Half" then Half else if t == "Single" then Single
    else if t == "Double" then Double else if t == "Boolean" then Boolean
    else if t == "Vector2" then Vector2 else if t == "Vector3" then Vector3
    else if t == "Vector4" then Vector4 else Quaternion
  }

  lemma TypeNames(k: Kind)
    ensures ':' !in TypeName(k)
    ensures KindNamed(TypeName(k)) == k
  {
  }

  /** Different (name, kind) pairs never share a key, whatever the names contain. */
  lemma KeyInjective(p: Name, q: Name)
    requires p.Key() == q.Key()
    ensures p == q
  {
    TypeNames(p.kind);
    TypeNames(q.kind);
    LastColon(p.name, q.name, TypeName(p.kind), TypeName(q.kind));
  }
}
