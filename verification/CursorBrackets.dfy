/** `StepIn` and `StepOut` nest, in the memory reader and in the memory writer. */
module CursorBrackets {
  import opened ByteOrder
  import opened TypedValues
  import W = WriterMachine
  import R = ReaderMachine
  import Writers = BinaryMemoryWriters

  // ----- Steps in and out -----

  datatype Turn = Inward | Outward | Level

  /** Steps in minus steps out. */
  function Depth(turns: seq<Turn>): int {
    if turns == [] then 0
    else Depth(turns[..|turns| - 1]) + match turns[|turns| - 1]
      case Inward => 1
      case Outward => -1
      case Level => 0
  }

  /** Every step out has its step in before it, and every step in its step out after it. */
  ghost predicate Balanced(turns: seq<Turn>) {
    Depth(turns) == 0 && forall i :: 0 <= i <= |turns| ==> Depth(turns[..i]) >= 0
  }

  // ----- A cursor with its saved positions -----

  datatype Cursor = Cursor(pos: int, steps: seq<int>)

  /** `Move` stands for any call that leaves the saved positions alone. */
  datatype CursorOp = In(target: int) | Out | Move(to: int) {
    function Turn(): Turn {
      match this
      case In(_) => Inward
      case Out => Outward
      case Move(_) => Level
    }
  }

  function Turns(ops: seq<CursorOp>): (turns: seq<Turn>)
    ensures |turns| == |ops| && forall i :: 0 <= i < |ops| ==> turns[i] == ops[i].Turn()
  {
    seq(|ops|, i requires 0 <= i < |ops| => ops[i].Turn())
  }

  lemma FirstTurn(ops: seq<CursorOp>)
    requires ops != []
    ensures Turns(ops) == [ops[0].Turn()] + Turns(ops[1..])
  {
  }

  /** `None` when the call throws. */
  function CursorStep(length: nat, c: Cursor, op: CursorOp): Option<Cursor> {
    match op
    case In(target) =>
      var low := target % 0x1_0000_0000;
      if low <= length then Some(Cursor(low, c.steps + [c.pos])) else None
    case Out =>
      if c.steps == [] then None
      else Some(Cursor(c.steps[|c.steps| - 1], c.steps[..|c.steps| - 1]))
    case Move(to) => Some(Cursor(to, c.steps))
  }

  function CursorRun(length: nat, c: Cursor, ops: seq<CursorOp>): Option<Cursor>
    decreases |ops|
  {
    if ops == [] then Some(c)
    else
      var next := CursorStep(length, c, ops[0]);
      if next.None? then None else CursorRun(length, next.value, ops[1..])
  }

  lemma {:induction false} RunSnoc(length: nat, c: Cursor, ops: seq<CursorOp>, op: CursorOp)
    ensures CursorRun(length, c, ops + [op]) ==
      var before := CursorRun(length, c, ops);
      if before.None? then None else CursorStep(length, before.value, op)
    decreases |ops|
  {
    if ops == [] {
      assert ([] + [op])[1..] == [];
    } else {
      assert (ops + [op])[1..] == ops[1..] + [op];
      var next := CursorStep(length, c, ops[0]);
      if next.Some? { RunSnoc(length, next.value, ops[1..], op); }
    }
  }

  /** The number of saved positions is the number at the start plus the unmatched steps, and as long as no more
      steps out than in happen, the positions saved before stay as they were. */
  lemma {:induction false} SavedPositions(length: nat, c: Cursor, ops: seq<CursorOp>)
    requires CursorRun(length, c, ops).Some?
    ensures |CursorRun(length, c, ops).value.steps| == |c.steps| + Depth(Turns(ops))
    ensures (forall i :: 0 <= i <= |ops| ==> Depth(Turns(ops)[..i]) >= 0) ==> c.steps <= CursorRun(length, c, ops).value.steps
    decreases |ops|
  {
    if ops == [] { return; }
    var init, op := ops[..|ops| - 1], ops[|ops| - 1];
    assert ops == init + [op];
    assert Turns(init) == Turns(ops)[..|init|];
    hide CursorRun, Turns;
    RunSnoc(length, c, init, op);
    SavedPositions(length, c, init);
    if forall i :: 0 <= i <= |ops| ==> Depth(Turns(ops)[..i]) >= 0 {
      forall i | 0 <= i <= |init| ensures Depth(Turns(init)[..i]) >= 0 {
        assert Turns(init)[..i] == Turns(ops)[..i];
      }
      assert Turns(ops)[..|ops|] == Turns(ops);
    }
  }

  /** A matched pair of steps around anything balanced restores the cursor and the saved positions. */
  lemma BracketRestores(length: nat, c: Cursor, target: int, body: seq<CursorOp>)
    requires Balanced(Turns(body))
    requires CursorRun(length, c, [In(target)] + body + [Out]).Some?
    ensures CursorRun(length, c, [In(target)] + body + [Out]) == Some(c)
  {
    var inside := [In(target)] + body;
    RunSnoc(length, c, inside, Out);
    assert inside[1..] == body;
    var entered := CursorStep(length, c, In(target)).value;
    SavedPositions(length, entered, body);
    assert CursorRun(length, entered, body).value.steps == entered.steps;
    assert entered.steps[..|c.steps|] == c.steps;
  }

  // ----- The reader -----

  /** The calls of the reader. `ReadSpan` with size 1 reads bytes; a variable-width integer is read as one of its kind. */
  datatype ReaderOp =
    | ReadStepIn(target: int) | ReadStepOut
    | Seek(target: int) | Read(kind: Kind) | Get(kind: Kind, target: int) | Peek(kind: Kind)
    | ReadSpan(size: nat, count: int) | ReadArray(width: nat, count: int)
    | ReadVectors(kind: Kind, count: int) | ReadVarVals(kind: Kind, count: int)
    | ReadTerminated(unit: nat, singly: bool)
  {
    function Turn(): Turn {
      match this
      case ReadStepIn(_) => Inward
      case ReadStepOut => Outward
      case _ => Level
    }

    predicate Valid() {
      && (ReadArray? ==> width > 0)
      && (ReadVectors? ==> kind.IsVector())
      && (ReadVarVals? ==> kind.IsInteger())
    }
  }

  function SomeIf<T>(g: R.Got<T>): Option<R.State> {
    if g.value.None? then None else Some(g.s)
  }

  function ReaderStep(s: R.State, op: ReaderOp): (r: Option<R.State>)
    requires R.Ready(s) && op.Valid()
    ensures r.Some? ==> R.Ready(r.value)
  {
    match op
    case ReadStepIn(target) => SomeIf(R.Positioned(s.(steps := s.steps + [s.pos]), target))
    case ReadStepOut =>
      if s.steps == [] then None
      else Some(s.(steps := s.steps[..|s.steps| - 1], pos := s.steps[|s.steps| - 1]))
    case Seek(target) => SomeIf(R.Positioned(s, target))
    case Read(kind) => SomeIf(R.ReadOne(s, kind))
    case Get(kind, target) => SomeIf(R.ValueAt(s, kind, target))
    case Peek(kind) => SomeIf(R.Peeked(s, kind))
    case ReadSpan(size, count) => SomeIf(R.SpanBytes(s, size, count))
    case ReadArray(width, count) => SomeIf(R.ArrayBits(s, width, count))
    case ReadVectors(kind, count) => SomeIf(R.VectorArray(s, kind, count))
    case ReadVarVals(kind, count) => SomeIf(R.VarArray(s, kind, count))
    case ReadTerminated(unit, singly) => SomeIf(R.Terminated(s, unit, singly))
  }

  ghost predicate ValidOps(ops: seq<ReaderOp>) {
    forall i :: 0 <= i < |ops| ==> ops[i].Valid()
  }

  function ReaderTurns(ops: seq<ReaderOp>): (turns: seq<Turn>)
    ensures |turns| == |ops| && forall i :: 0 <= i < |ops| ==> turns[i] == ops[i].Turn()
  {
    seq(|ops|, i requires 0 <= i < |ops| => ops[i].Turn())
  }

  function ReaderRun(s: R.State, ops: seq<ReaderOp>): (r: Option<R.State>)
    requires R.Ready(s) && ValidOps(ops)
    ensures r.Some? ==> R.Ready(r.value)
    decreases |ops|
  {
    if ops == [] then Some(s)
    else
      var next := ReaderStep(s, ops[0]);
      if next.None? then None else ReaderRun(next.value, ops[1..])
  }

  /** What each call of a run that does not throw does to the cursor. */
  ghost function ReaderCursorOps(s: R.State, ops: seq<ReaderOp>): (c: seq<CursorOp>)
    requires R.Ready(s) && ValidOps(ops) && ReaderRun(s, ops).Some?
    ensures |c| == |ops|
    decreases |ops|
  {
    if ops == [] then []
    else
      var next := ReaderStep(s, ops[0]).value;
      var op := match ops[0]
        case ReadStepIn(target) => In(target)
        case ReadStepOut => Out
        case _ => Move(next.pos);
      [op] + ReaderCursorOps(next, ops[1..])
  }

  ghost predicate SameButCursor(s: R.State, t: R.State) {
    t == s.(pos := t.pos, steps := t.steps)
  }

  lemma FirstReaderTurn(ops: seq<ReaderOp>)
    requires ops != []
    ensures ReaderTurns(ops) == [ops[0].Turn()] + ReaderTurns(ops[1..])
  {
  }

  /** Any run of the reader that does not throw is a run of its cursor, step in for step in and step out for step out. */
  lemma {:induction false} ReaderFollows(s: R.State, ops: seq<ReaderOp>)
    requires R.Ready(s) && ValidOps(ops) && ReaderRun(s, ops).Some?
    ensures var t := ReaderRun(s, ops).value;
      && CursorRun(|s.bytes|, Cursor(s.pos, s.steps), ReaderCursorOps(s, ops)) == Some(Cursor(t.pos, t.steps))
      && SameButCursor(s, t)
    ensures Turns(ReaderCursorOps(s, ops)) == ReaderTurns(ops)
    decreases |ops|
  {
    if ops != [] {
      var next := ReaderStep(s, ops[0]).value;
      ReaderStepFollows(s, ops[0]);
      hide ReaderStep;
      ReaderFollows(next, ops[1..]);
      var cs := ReaderCursorOps(s, ops);
      assert cs[1..] == ReaderCursorOps(next, ops[1..]);
      FirstTurn(cs);
      FirstReaderTurn(ops);
      hide Turns, ReaderTurns;
    }
  }

  lemma ReaderStepFollows(s: R.State, op: ReaderOp)
    requires R.Ready(s) && op.Valid() && ReaderStep(s, op).Some?
    ensures var next := ReaderStep(s, op).value;
      && SameButCursor(s, next)
      && (op.ReadStepIn? ==> CursorStep(|s.bytes|, Cursor(s.pos, s.steps), In(op.target)) == Some(Cursor(next.pos, next.steps)))
      && (op.ReadStepOut? ==> CursorStep(|s.bytes|, Cursor(s.pos, s.steps), Out) == Some(Cursor(next.pos, next.steps)))
      && (!op.ReadStepIn? && !op.ReadStepOut? ==> next.steps == s.steps)
  {
    hide R.ReadOne, R.ArrayBits, R.Terminated, R.SpanBytes, R.VectorArray, R.ManyBits;
  }

  /** In any run of the reader that does not throw, the number of saved positions grows by the unmatched steps. */
  lemma ReaderStepCount(s: R.State, ops: seq<ReaderOp>)
    requires R.Ready(s) && ValidOps(ops) && ReaderRun(s, ops).Some?
    ensures |ReaderRun(s, ops).value.steps| == |s.steps| + Depth(ReaderTurns(ops))
  {
    ReaderFollows(s, ops);
    SavedPositions(|s.bytes|, Cursor(s.pos, s.steps), ReaderCursorOps(s, ops));
  }

  /** In any run of the reader that does not throw, a `StepOut` brings back the whole state its matching `StepIn` found. */
  lemma {:induction false} ReaderBracketRestores(s: R.State, target: int, body: seq<ReaderOp>)
    requires R.Ready(s) && ValidOps(body) && Balanced(ReaderTurns(body))
    requires ReaderRun(s, [ReadStepIn(target)] + body + [ReadStepOut]).Some?
    ensures ReaderRun(s, [ReadStepIn(target)] + body + [ReadStepOut]) == Some(s)
  {
    var ops := [ReadStepIn(target)] + body + [ReadStepOut];
    ReaderFollows(s, ops);
    var cs := ReaderCursorOps(s, ops);
    hide ReaderRun, ReaderCursorOps, CursorRun, Balanced;
    ReaderBracketTurns(target, body);
    BracketShape(cs, ReaderTurns(body));
    BracketRestores(|s.bytes|, Cursor(s.pos, s.steps), cs[0].target, cs[1..|body| + 1]);
  }

  lemma ReaderBracketTurns(target: int, body: seq<ReaderOp>)
    ensures ReaderTurns([ReadStepIn(target)] + body + [ReadStepOut]) == [Inward] + ReaderTurns(body) + [Outward]
  {
  }

  /** Calls whose turns are a bracket are a bracket. */
  lemma BracketShape(cs: seq<CursorOp>, body: seq<Turn>)
    requires Turns(cs) == [Inward] + body + [Outward]
    ensures |cs| == |body| + 2 && cs[0].In? && cs == [In(cs[0].target)] + cs[1..|body| + 1] + [Out]
    ensures Turns(cs[1..|body| + 1]) == body
  {
    var turns := Turns(cs);
    assert |turns| == |body| + 2 && turns[0] == Inward && turns[|body| + 1] == Outward;
    assert turns[1..|body| + 1] == body;
    hide Turns;
    InnerTurns(cs, |body| + 1);
    var last := cs[|body| + 1];
    assert cs[0].In? && last.Out?;
    assert cs == [cs[0]] + cs[1..|body| + 1] + [last];
  }

  lemma InnerTurns(cs: seq<CursorOp>, n: nat)
    requires 1 <= n <= |cs|
    ensures Turns(cs[1..n]) == Turns(cs)[1..n]
  {
  }

  // ----- The writer -----

  /** The calls of the writer. A variable-width integer is written as a value of its kind. */
  datatype WriterOp =
    | WriteStepIn(target: int) | WriteStepOut
    | Jump(target: int) | Do(op: W.Op) | Pad(alignment: int)
    | WriteBytes(bytes: seq<Byte>) | WriteArray(width: nat, values: seq<nat>) | WriteVarVals(kind: Kind, numbers: seq<int>)
  {
    function Turn(): Turn {
      match this
      case WriteStepIn(_) => Inward
      case WriteStepOut => Outward
      case _ => Level
    }
  }

  function WriterTurns(ops: seq<WriterOp>): (turns: seq<Turn>)
    ensures |turns| == |ops| && forall i :: 0 <= i < |ops| ==> turns[i] == ops[i].Turn()
  {
    seq(|ops|, i requires 0 <= i < |ops| => ops[i].Turn())
  }

  function Completed(o: W.Outcome): Option<W.State> {
    if o.ok then Some(o.s) else None
  }

  function WriterStep(s: W.State, op: WriterOp): (r: Option<W.State>)
    requires WriterReady(s)
    ensures r.Some? ==> W.Ready(r.value)
  {
    match op
    case WriteStepIn(target) =>
      var low := target % 0x1_0000_0000;
      if low <= |s.bytes| then Some(s.(steps := s.steps + [s.pos], pos := low)) else None
    case WriteStepOut =>
      if s.steps == [] then None
      else Some(s.(steps := s.steps[..|s.steps| - 1], pos := s.steps[|s.steps| - 1]))
    case Jump(target) =>
      var low := target % 0x1_0000_0000;
      if low <= |s.bytes| then Some(s.(pos := low)) else None
    case Do(op) => Completed(W.Step(s, op))
    case Pad(alignment) =>
      if alignment == 0 then None else Completed(W.Emit(s, Writers.SingleBytes(Writers.PadBytes(s.pos, alignment))))
    case WriteBytes(bytes) => Completed(W.Emit(s, Writers.SingleBytes(bytes)))
    case WriteArray(width, values) => Completed(W.Emit(s, Writers.ArrayChunks(s.sink, s.bigEndian, width, values)))
    case WriteVarVals(kind, numbers) => Completed(Writers.EmitChecked(s, kind, numbers))
  }

  ghost predicate WriterReady(s: W.State) {
    W.Ready(s) && s.sink.Memory? && forall i :: 0 <= i < |s.steps| ==> 0 <= s.steps[i] <= |s.bytes|
  }

  /** What no call changes but those that step in or out. */
  ghost predicate KeepsRegion(s: W.State, t: W.State) {
    |t.bytes| == |s.bytes| && t == s.(bytes := t.bytes, pos := t.pos, table := t.table)
  }

  lemma {:induction false} EmitKeepsRegion(s: W.State, chunks: seq<seq<Byte>>)
    requires W.Ready(s) && s.sink.Memory?
    ensures KeepsRegion(s, W.Emit(s, chunks).s)
    decreases |chunks|
  {
    if chunks != [] && W.Fits(s, |chunks[0]|) {
      EmitKeepsRegion(W.Put(s, chunks[0]), chunks[1..]);
    }
  }

  lemma StepKeepsRegion(s: W.State, op: W.Op)
    requires W.Ready(s) && s.sink.Memory?
    ensures KeepsRegion(s, W.Step(s, op).s)
  {
    hide W.Emit, Chunks, W.Filler;
    match op
    case Write(v) => EmitKeepsRegion(s, Chunks(s.sink, s.bigEndian, v));
    case Reserve(name, kind) =>
      var key := W.KeyOf(name, W.TypeName(kind));
      EmitKeepsRegion(s.(table := s.table[key := s.pos]), W.Filler(kind.Size()));
    case Fill(name, v) =>
      var key := W.KeyOf(name, W.TypeName(W.TakenKind(v.KindOf())));
      if key in s.table {
        EmitKeepsRegion(s.(table := s.table - {key}, pos := s.table[key]), Chunks(s.sink, s.bigEndian, v));
      }
  }

  lemma {:induction false} CheckedKeepsRegion(s: W.State, kind: Kind, numbers: seq<int>)
    requires W.Ready(s) && s.sink.Memory?
    ensures KeepsRegion(s, Writers.EmitChecked(s, kind, numbers).s)
    decreases |numbers|
  {
    hide W.Step;
    if numbers != [] {
      var op := W.Write(Integer(kind, numbers[0]));
      StepKeepsRegion(s, op);
      if W.Step(s, op).ok { CheckedKeepsRegion(W.Step(s, op).s, kind, numbers[1..]); }
    }
  }

  /** One call of the writer that does not throw, on its cursor. */
  lemma WriterStepFollows(s: W.State, op: WriterOp)
    requires WriterReady(s) && WriterStep(s, op).Some?
    ensures var next := WriterStep(s, op).value;
      && WriterReady(next) && KeepsRegion(s.(steps := next.steps), next)
      && (op.WriteStepIn? ==> CursorStep(|s.bytes|, Cursor(s.pos, s.steps), In(op.target)) == Some(Cursor(next.pos, next.steps)))
      && (op.WriteStepOut? ==> CursorStep(|s.bytes|, Cursor(s.pos, s.steps), Out) == Some(Cursor(next.pos, next.steps)))
      && (!op.WriteStepIn? && !op.WriteStepOut? ==> next.steps == s.steps)
  {
    hide W.Emit, W.Step, Writers.EmitChecked;
    match op
    case Do(op) => StepKeepsRegion(s, op);
    case Pad(alignment) => EmitKeepsRegion(s, Writers.SingleBytes(Writers.PadBytes(s.pos, alignment)));
    case WriteBytes(bytes) => EmitKeepsRegion(s, Writers.SingleBytes(bytes));
    case WriteArray(width, values) => EmitKeepsRegion(s, Writers.ArrayChunks(s.sink, s.bigEndian, width, values));
    case WriteVarVals(kind, numbers) => CheckedKeepsRegion(s, kind, numbers);
    case _ =>
  }

  function WriterRun(s: W.State, ops: seq<WriterOp>): (r: Option<W.State>)
    requires WriterReady(s)
    ensures r.Some? ==> WriterReady(r.value)
    decreases |ops|
  {
    if ops == [] then Some(s)
    else
      var next := WriterStep(s, ops[0]);
      if next.None? then None
      else
        WriterStepFollows(s, ops[0]);
        WriterRun(next.value, ops[1..])
  }

  ghost function WriterCursorOps(s: W.State, ops: seq<WriterOp>): (c: seq<CursorOp>)
    requires WriterReady(s) && WriterRun(s, ops).Some?
    ensures |c| == |ops|
    decreases |ops|
  {
    if ops == [] then []
    else
      var next := WriterStep(s, ops[0]).value;
      WriterStepFollows(s, ops[0]);
      var op := match ops[0]
        case WriteStepIn(target) => In(target)
        case WriteStepOut => Out
        case _ => Move(next.pos);
      [op] + WriterCursorOps(next, ops[1..])
  }

  lemma FirstWriterTurn(ops: seq<WriterOp>)
    requires ops != []
    ensures WriterTurns(ops) == [ops[0].Turn()] + WriterTurns(ops[1..])
  {
  }

  /** Any run of the writer that does not throw is a run of its cursor, step in for step in and step out for step out. */
  lemma {:induction false} WriterFollows(s: W.State, ops: seq<WriterOp>)
    requires WriterReady(s) && WriterRun(s, ops).Some?
    ensures var t := WriterRun(s, ops).value;
      && CursorRun(|s.bytes|, Cursor(s.pos, s.steps), WriterCursorOps(s, ops)) == Some(Cursor(t.pos, t.steps))
      && KeepsRegion(s.(steps := t.steps), t)
    ensures Turns(WriterCursorOps(s, ops)) == WriterTurns(ops)
    decreases |ops|
  {
    if ops != [] {
      var next := WriterStep(s, ops[0]).value;
      WriterStepFollows(s, ops[0]);
      hide WriterStep;
      WriterFollows(next, ops[1..]);
      var cs := WriterCursorOps(s, ops);
      assert cs[1..] == WriterCursorOps(next, ops[1..]);
      FirstTurn(cs);
      FirstWriterTurn(ops);
      hide Turns, WriterTurns;
    }
  }

  /** In any run of the writer that does not throw, the number of saved positions grows by the unmatched steps. */
  lemma WriterStepCount(s: W.State, ops: seq<WriterOp>)
    requires WriterReady(s) && WriterRun(s, ops).Some?
    ensures |WriterRun(s, ops).value.steps| == |s.steps| + Depth(WriterTurns(ops))
  {
    WriterFollows(s, ops);
    SavedPositions(|s.bytes|, Cursor(s.pos, s.steps), WriterCursorOps(s, ops));
  }

  lemma WriterBracketTurns(target: int, body: seq<WriterOp>)
    ensures WriterTurns([WriteStepIn(target)] + body + [WriteStepOut]) == [Inward] + WriterTurns(body) + [Outward]
  {
  }

  /** In any run of the writer that does not throw, a `StepOut` brings back the cursor and the saved positions its matching
      `StepIn` found. */
  lemma {:induction false} WriterBracketRestores(s: W.State, target: int, body: seq<WriterOp>)
    requires WriterReady(s) && Balanced(WriterTurns(body))
    requires WriterRun(s, [WriteStepIn(target)] + body + [WriteStepOut]).Some?
    ensures var t := WriterRun(s, [WriteStepIn(target)] + body + [WriteStepOut]).value;
      t.pos == s.pos && t.steps == s.steps && KeepsRegion(s, t)
  {
    var ops := [WriteStepIn(target)] + body + [WriteStepOut];
    WriterFollows(s, ops);
    var cs := WriterCursorOps(s, ops);
    hide WriterRun, WriterCursorOps, CursorRun, Balanced;
    WriterBracketTurns(target, body);
    BracketShape(cs, WriterTurns(body));
    BracketRestores(|s.bytes|, Cursor(s.pos, s.steps), cs[0].target, cs[1..|body| + 1]);
  }
}
