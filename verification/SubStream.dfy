/** A window on another stream. */
module SubStreams {
  import opened FixedWidth
  import opened ByteOrder
  import opened TypedValues
  import opened Streams

  // ----- What the window does to its base stream -----

  datatype Window = Window(offset: int, length: int)

  datatype Op =
    | SetPosition(value: int)
    | SeekBegin(value: int)
    | Read(bufferLength: nat, at: int, count: int)
    | ReadSpan(spanLength: nat)
    | Write(buffer: seq<Byte>, at: int, count: int)

  /** What a call returned: `Threw`, a position, or the bytes read. */
  datatype Answer = Threw | Moved(position: int) | Got(bytes: seq<Byte>) | Wrote

  datatype Outcome = Outcome(s: State, answer: Answer)

  ghost predicate Inside(w: Window, s: State) {
    && Ready(s)
    && 0 <= w.offset && 0 <= w.length && w.offset + w.length <= |s.data|
    && w.offset <= s.pos <= w.offset + w.length
  }

  function BaseRead(s: State, bufferLength: nat, at: int, count: int): Outcome
    requires Ready(s)
  {
    if ValidRange(bufferLength, at, count) then
      Outcome(State(s.data, s.pos + |ReadAt(s, count)|), Got(ReadAt(s, count)))
    else Outcome(s, Threw)
  }

  function BaseWrite(s: State, buffer: seq<Byte>, at: int, count: int): Outcome
    requires Ready(s)
  {
    if ValidRange(|buffer|, at, count) then
      Outcome(State(WrittenAt(s.data, s.pos, buffer[at..at + count]), s.pos + count), Wrote)
    else Outcome(s, Threw)
  }

  function BaseMove(s: State, target: int): Outcome {
    if target < 0 then Outcome(s, Threw) else Outcome(State(s.data, target), Moved(target))
  }

  /** Each call of the window, with the 64-bit sums it computes. */
  function Step(w: Window, s: State, op: Op): Outcome
    requires Ready(s)
  {
    match op
    case SetPosition(value) => Move(w, s, value)
    case SeekBegin(value) => Move(w, s, value)
    case Read(bufferLength, at, count) => BaseRead(s, bufferLength, at, Clipped(w, s, count))
    case ReadSpan(n) => SpanRead(w, s, n)
    case Write(buffer, at, count) =>
      if WrapInt64(s.pos + count) > WrapInt64(w.offset + w.length) then Outcome(s, Threw)
      else BaseWrite(s, buffer, at, count)
  }

  function Move(w: Window, s: State, value: int): Outcome
    requires Ready(s)
  {
    var target := WrapInt64(w.offset + value);
    if target < w.offset || target > WrapInt64(w.offset + w.length) then Outcome(s, Threw)
    else
      var moved := BaseMove(s, target);
      if moved.answer.Threw? then moved else Outcome(moved.s, Moved(target - w.offset))
  }

  /** The count, cut to what the window has left and cast to 32 bits. */
  function Clipped(w: Window, s: State, count: int): int {
    var possible := w.length - (s.pos - w.offset);
    if count > possible then WrapInt32(possible) else count
  }

  /** `Read(Span<byte>)` casts what is left in the window to 32 bits before comparing. */
  function SpanRead(w: Window, s: State, n: nat): Outcome
    requires Ready(s)
  {
    var possible := WrapInt32(w.length - (s.pos - w.offset));
    if n > possible then
      if possible < 0 then Outcome(s, Threw) else BaseRead(s, possible, 0, possible)
    else BaseRead(s, n, 0, n)
  }

  /** What is left in the window fits 32 bits, or its cast value still covers the span. */
  predicate SpanFits(w: Window, s: State, n: nat) {
    var left := w.length - (s.pos - w.offset);
    left <= INT32_MAX || n <= WrapInt32(left)
  }

  predicate Fits(w: Window, s: State, op: Op) {
    op.ReadSpan? ==> SpanFits(w, s, op.spanLength)
  }

  function Run(w: Window, s: State, ops: seq<Op>): (State, seq<Answer>)
    requires Inside(w, s) && ValidOps(ops)
    decreases |ops|
  {
    if ops == [] then (s, [])
    else
      StaysInside(w, s, ops[0]);
      var first := Step(w, s, ops[0]);
      var rest := Run(w, first.s, ops[1..]);
      (rest.0, [first.answer] + rest.1)
  }

  /** The arguments C# can pass, with buffer ranges that lie in their buffers. */
  ghost predicate ValidOp(op: Op) {
    match op
    case SetPosition(value) => IsInt64(value)
    case SeekBegin(value) => IsInt64(value)
    case Read(n, at, count) => n <= INT32_MAX && ValidRange(n, at, count)
    case ReadSpan(n) => n <= INT32_MAX
    case Write(buffer, at, count) => |buffer| <= INT32_MAX && IsInt32(at) && IsInt32(count)
  }

  ghost predicate ValidOps(ops: seq<Op>) {
    forall i :: 0 <= i < |ops| ==> ValidOp(ops[i])
  }

  // ----- A stream of its own with the same bytes -----

  /** A stream of fixed length over its own bytes: the specification of a window. */
  function AloneStep(s: State, op: Op): Outcome
    requires Ready(s)
  {
    match op
    case SetPosition(value) => if 0 <= value <= |s.data| then BaseMove(s, value) else Outcome(s, Threw)
    case SeekBegin(value) => if 0 <= value <= |s.data| then BaseMove(s, value) else Outcome(s, Threw)
    case Read(bufferLength, at, count) => BaseRead(s, bufferLength, at, count)
    case ReadSpan(n) => BaseRead(s, n, 0, n)
    case Write(buffer, at, count) => if s.pos + count > |s.data| then Outcome(s, Threw) else BaseWrite(s, buffer, at, count)
  }

  /** The window's own bytes and position. */
  function Seen(w: Window, s: State): State
    requires Inside(w, s)
  {
    State(s.data[w.offset..w.offset + w.length], s.pos - w.offset)
  }

  function AloneRun(s: State, ops: seq<Op>): (State, seq<Answer>)
    requires Inside(Window(0, |s.data|), s) && ValidOps(ops)
    decreases |ops|
  {
    if ops == [] then (s, [])
    else
      AloneStaysInside(s, ops[0]);
      var first := AloneStep(s, ops[0]);
      var rest := AloneRun(first.s, ops[1..]);
      (rest.0, [first.answer] + rest.1)
  }

  lemma AloneStaysInside(s: State, op: Op)
    requires Inside(Window(0, |s.data|), s) && ValidOp(op)
    ensures var t := AloneStep(s, op).s; Inside(Window(0, |t.data|), t)
  {
  }

  // ----- Refinement -----

  /** The bytes before and after the window are the same. */
  ghost predicate SameOutside(w: Window, a: seq<Byte>, b: seq<Byte>) {
    && |a| == |b| && 0 <= w.offset && 0 <= w.length && w.offset + w.length <= |a|
    && a[..w.offset] == b[..w.offset] && a[w.offset + w.length..] == b[w.offset + w.length..]
  }

  lemma SliceOfSlice(data: seq<Byte>, lo: nat, hi: nat, from: nat, n: nat)
    requires lo <= hi <= |data| && from + n <= hi - lo
    ensures data[lo..hi][from..from + n] == data[lo + from..lo + from + n]
  {
    var a, b := data[lo..hi][from..from + n], data[lo + from..lo + from + n];
    assert forall i :: 0 <= i < n ==> a[i] == data[lo..hi][from + i] == b[i];
    assert a == b;
  }

  lemma WriteInside(w: Window, s: State, bs: seq<Byte>)
    requires Inside(w, s) && s.pos + |bs| <= w.offset + w.length
    ensures var t := State(WrittenAt(s.data, s.pos, bs), s.pos + |bs|);
      && Inside(w, t) && SameOutside(w, s.data, t.data)
      && Seen(w, t).data == WrittenAt(Seen(w, s).data, Seen(w, s).pos, bs)
  {
    var data, end, pos := s.data, w.offset + w.length, s.pos;
    if bs != [] {
      WrittenOver(data, pos, bs);
      WrittenOver(data[w.offset..end], pos - w.offset, bs);
      hide WrittenAt;
      var t := WrittenAt(data, pos, bs);
      SplicedParts(data, w.offset, end, pos, bs, t);
      SpliceSeen(data, w.offset, end, pos, bs);
    }
  }

  lemma SpliceSeen(data: seq<Byte>, from: nat, end: nat, pos: nat, bs: seq<Byte>)
    requires from <= pos && pos + |bs| <= end <= |data|
    ensures var d, after := data[from..end], pos + |bs|;
      d[..pos - from] + bs + d[after - from..] == data[from..pos] + bs + data[after..end]
  {
    var after := pos + |bs|;
    SliceOfSlice(data, from, end, 0, pos - from);
    SliceOfSlice(data, from, end, after - from, end - after);
  }

  lemma WrittenOver(data: seq<Byte>, pos: nat, bs: seq<Byte>)
    requires bs != [] && pos + |bs| <= |data|
    ensures WrittenAt(data, pos, bs) == data[..pos] + bs + data[pos + |bs|..]
  {
  }

  lemma SplicedParts(data: seq<Byte>, from: nat, end: nat, pos: nat, bs: seq<Byte>, t: seq<Byte>)
    requires from <= pos && pos + |bs| <= end <= |data| && t == data[..pos] + bs + data[pos + |bs|..]
    ensures |t| == |data| && t[..from] == data[..from] && t[end..] == data[end..]
    ensures t[from..end] == data[from..pos] + bs + data[pos + |bs|..end]
  {
    assert forall i :: 0 <= i < |t| ==> t[i] == if i < pos || i >= pos + |bs| then data[i] else bs[i - pos];
  }

  lemma ReadInside(w: Window, s: State, count: nat)
    requires Inside(w, s)
    ensures var possible := w.length - (s.pos - w.offset);
      ReadAt(s, if count > possible then possible else count) == ReadAt(Seen(w, s), count)
  {
    var possible := w.length - (s.pos - w.offset);
    var n := if count > possible then possible else count;
    assert Available(s, n) == n && Available(Seen(w, s), count) == n;
    SliceOfSlice(s.data, w.offset, w.offset + w.length, s.pos - w.offset, n);
  }

  /** One call stays inside and touches nothing outside; it answers what a stream of its own would answer, and changes its
      bytes and position alike, exactly when it is no span read that the cast cuts short. */
  lemma StepRefines(w: Window, s: State, op: Op)
    requires Inside(w, s) && ValidOp(op)
    ensures var o := Step(w, s, op);
      && Inside(w, o.s) && SameOutside(w, s.data, o.s.data)
      && (Outcome(Seen(w, o.s), o.answer) == AloneStep(Seen(w, s), op) <==> Fits(w, s, op))
      && (o.answer == AloneStep(Seen(w, s), op).answer <==> Fits(w, s, op))
  {
    hide WrittenAt, ReadAt, WrapInt32, WrapInt64, SpanRead, SpanFits;
    match op {
      case SetPosition(value) => MoveRefines(w, s, value);
      case SeekBegin(value) => MoveRefines(w, s, value);
      case Read(_, _, count) =>
        ReadInside(w, s, count);
        ReadLength(s, Clipped(w, s, count));
      case ReadSpan(n) =>
        SpanReadExact(w, s, n);
        ReadInside(w, s, n);
        ReadLength(s, Clipped(w, s, n));
      case Write(buffer, at, count) =>
        if ValidRange(|buffer|, at, count) && s.pos + count <= w.offset + w.length {
          WriteInside(w, s, buffer[at..at + count]);
        }
    }
  }

  /** A span read does what a read into an array of its length does exactly when the cast does not cut it short; it always
      stays inside, and otherwise answers something else than a stream of its own. */
  lemma SpanReadExact(w: Window, s: State, n: nat)
    requires Inside(w, s) && n <= INT32_MAX
    ensures SpanRead(w, s, n) == Step(w, s, Read(n, 0, n)) <==> SpanFits(w, s, n)
    ensures SpanRead(w, s, n).answer == Got(ReadAt(Seen(w, s), n)) <==> SpanFits(w, s, n)
    ensures Inside(w, SpanRead(w, s, n).s) && SpanRead(w, s, n).s.data == s.data
  {
    hide ReadAt, WrapInt32;
    var left := w.length - (s.pos - w.offset);
    var possible := WrapInt32(left);
    CastBelow(left);
    ReadInside(w, s, n);
    ReadAvailable(s, if n > left then left else n);
    if possible >= 0 {
      ReadAvailable(s, if n > possible then possible else n);
    }
  }

  lemma ReadLength(s: State, count: nat)
    requires Ready(s)
    ensures |ReadAt(s, count)| <= count
    ensures s.pos + |ReadAt(s, count)| <= |s.data| || ReadAt(s, count) == []
  {
  }

  lemma MoveRefines(w: Window, s: State, value: int)
    requires Inside(w, s) && IsInt64(value)
    ensures Move(w, s, value) ==
      if 0 <= value <= w.length then Outcome(State(s.data, w.offset + value), Moved(value)) else Outcome(s, Threw)
  {
  }

  lemma StaysInside(w: Window, s: State, op: Op)
    requires Inside(w, s) && ValidOp(op)
    ensures Inside(w, Step(w, s, op).s)
  {
    StepRefines(w, s, op);
  }

  /** No span read of the run is cut short by the cast. */
  ghost predicate AllFit(w: Window, s: State, ops: seq<Op>)
    requires Inside(w, s) && ValidOps(ops)
    decreases |ops|
  {
    ops == [] ||
    (Fits(w, s, ops[0]) &&
     (StaysInside(w, s, ops[0]);
      AllFit(w, Step(w, s, ops[0]).s, ops[1..])))
  }

  /** In a window of less than 2 GiB nothing is cut short. */
  lemma {:induction false} ShortWindowFits(w: Window, s: State, ops: seq<Op>)
    requires Inside(w, s) && ValidOps(ops) && w.length <= INT32_MAX
    ensures AllFit(w, s, ops)
    decreases |ops|
  {
    if ops != [] {
      StaysInside(w, s, ops[0]);
      ShortWindowFits(w, Step(w, s, ops[0]).s, ops[1..]);
    }
  }

  /** Every run of the window keeps the position inside and every byte outside the window unchanged. It answers what the
      same run of a stream of its own answers, and leaves the window's bytes and position as that run leaves its own, exactly
      when no span read is cut short. */
  lemma {:induction false} RunRefines(w: Window, s: State, ops: seq<Op>)
    requires Inside(w, s) && ValidOps(ops)
    ensures Inside(Window(0, w.length), Seen(w, s))
    ensures var (t, answers) := Run(w, s, ops);
      && Inside(w, t) && SameOutside(w, s.data, t.data)
      && ((Seen(w, t), answers) == AloneRun(Seen(w, s), ops) <==> AllFit(w, s, ops))
    decreases |ops|
  {
    hide Step, AloneStep, Fits;
    if ops != [] {
      StepRefines(w, s, ops[0]);
      AloneStaysInside(Seen(w, s), ops[0]);
      RunRefines(w, Step(w, s, ops[0]).s, ops[1..]);
      var answers, alone := Run(w, s, ops).1, AloneRun(Seen(w, s), ops).1;
      assert answers[0] == Step(w, s, ops[0]).answer && alone[0] == AloneStep(Seen(w, s), ops[0]).answer;
      assert answers[1..] == Run(w, Step(w, s, ops[0]).s, ops[1..]).1;
      assert alone[1..] == AloneRun(AloneStep(Seen(w, s), ops[0]).s, ops[1..]).1;
    }
  }

  // ----- Windows on windows -----

  /** The same code over a base stream that is itself a window. */
  function NestedStep(outer: Window, inner: Window, s: State, op: Op): Outcome
    requires Ready(s)
  {
    var innerPosition := s.pos - inner.offset;
    match op
    case SetPosition(value) => NestedMove(outer, inner, s, value)
    case SeekBegin(value) => NestedMove(outer, inner, s, value)
    case Read(bufferLength, at, count) =>
      var possible := outer.length - (innerPosition - outer.offset);
      Step(inner, s, Read(bufferLength, at, if count > possible then WrapInt32(possible) else count))
    case ReadSpan(n) =>
      var possible := WrapInt32(outer.length - (innerPosition - outer.offset));
      if n <= possible then Step(inner, s, ReadSpan(n))
      else if possible < 0 then Outcome(s, Threw)
      else Step(inner, s, Read(possible, 0, possible))
    case Write(buffer, at, count) =>
      if WrapInt64(innerPosition + count) > WrapInt64(outer.offset + outer.length) then Outcome(s, Threw)
      else Step(inner, s, Write(buffer, at, count))
  }

  function NestedMove(outer: Window, inner: Window, s: State, value: int): Outcome
    requires Ready(s)
  {
    var target := WrapInt64(outer.offset + value);
    if target < outer.offset || target > WrapInt64(outer.offset + outer.length) then Outcome(s, Threw)
    else
      var moved := Step(inner, s, SetPosition(target));
      if moved.answer.Threw? then moved else Outcome(moved.s, Moved(moved.answer.position - outer.offset))
  }

  function Flat(outer: Window, inner: Window): Window {
    Window(inner.offset + outer.offset, outer.length)
  }

  ghost predicate BothInside(outer: Window, inner: Window, s: State) {
    Inside(inner, s) && Inside(outer, Seen(inner, s))
  }

  /** No span read that the outer window passes on is cut short by the inner one. */
  predicate NestedFits(outer: Window, inner: Window, s: State, op: Op) {
    op.ReadSpan? ==>
      op.spanLength > WrapInt32(outer.length - (s.pos - inner.offset - outer.offset)) || SpanFits(inner, s, op.spanLength)
  }

  /** A window on a window is one window at the summed offset, except that the inner one may cut a span read short. */
  lemma NestedIsFlat(outer: Window, inner: Window, s: State, op: Op)
    requires BothInside(outer, inner, s) && ValidOp(op)
    ensures Inside(Flat(outer, inner), s)
    ensures NestedStep(outer, inner, s, op) == Step(Flat(outer, inner), s, op) <==> NestedFits(outer, inner, s, op)
    ensures NestedStep(outer, inner, s, op).answer == Step(Flat(outer, inner), s, op).answer
       <==> NestedFits(outer, inner, s, op)
  {
    match op {
      case SetPosition(value) => NestedMoveIsFlat(outer, inner, s, value);
      case SeekBegin(value) => NestedMoveIsFlat(outer, inner, s, value);
      case Read(_, _, _) => hide BaseRead, BaseWrite;
      case ReadSpan(n) => NestedSpanIsFlat(outer, inner, s, n);
      case Write(_, _, _) => hide BaseRead, BaseWrite;
    }
  }

  lemma NestedSpanIsFlat(outer: Window, inner: Window, s: State, n: nat)
    requires BothInside(outer, inner, s) && n <= INT32_MAX
    ensures NestedStep(outer, inner, s, ReadSpan(n)) == SpanRead(Flat(outer, inner), s, n)
       <==> NestedFits(outer, inner, s, ReadSpan(n))
    ensures NestedStep(outer, inner, s, ReadSpan(n)).answer == SpanRead(Flat(outer, inner), s, n).answer
       <==> NestedFits(outer, inner, s, ReadSpan(n))
    ensures NestedStep(outer, inner, s, ReadSpan(n)).s.data == s.data
    ensures s.pos <= NestedStep(outer, inner, s, ReadSpan(n)).s.pos <= inner.offset + outer.offset + outer.length
  {
    hide ReadAt, WrapInt32;
    var left, outerLeft := inner.length - (s.pos - inner.offset), outer.length - (s.pos - inner.offset - outer.offset);
    CastBelow(left);
    CastBelow(outerLeft);
    var cast, possible := WrapInt32(left), WrapInt32(outerLeft);
    if n > possible >= 0 {
      ReadAvailable(s, possible);
    }
    if n <= possible {
      ReadAvailable(s, n);
      if n > cast >= 0 { ReadAvailable(s, cast); }
    }
  }

  lemma NestedMoveIsFlat(outer: Window, inner: Window, s: State, value: int)
    requires BothInside(outer, inner, s) && IsInt64(value)
    ensures NestedMove(outer, inner, s, value) == Move(Flat(outer, inner), s, value)
  {
    hide Move;
    MoveRefines(Flat(outer, inner), s, value);
    MoveRefines(outer, Seen(inner, s), value);
    SumExact(outer.offset, value);
    if 0 <= value <= outer.length { MoveRefines(inner, s, outer.offset + value); }
  }

  /** The wrapped sum of an offset and a position lies in a window exactly when the true sum does. */
  lemma SumExact(offset: int, value: int)
    requires 0 <= offset <= MAX_STREAM && IsInt64(value)
    ensures WrapInt64(offset + value) == offset + value || WrapInt64(offset + value) < 0
    ensures value <= MAX_STREAM ==> WrapInt64(offset + value) == offset + value
  {
  }

  /** Both windows stay valid after every call. */
  lemma NestedStaysInside(outer: Window, inner: Window, s: State, op: Op)
    requires BothInside(outer, inner, s) && ValidOp(op)
    ensures BothInside(outer, inner, NestedStep(outer, inner, s, op).s)
  {
    NestedIsFlat(outer, inner, s, op);
    StepRefines(Flat(outer, inner), s, op);
    if op.ReadSpan? { NestedSpanIsFlat(outer, inner, s, op.spanLength); }
    hide NestedStep, Step;
  }

  function NestedRun(outer: Window, inner: Window, s: State, ops: seq<Op>): (State, seq<Answer>)
    requires BothInside(outer, inner, s) && ValidOps(ops)
    decreases |ops|
  {
    if ops == [] then (s, [])
    else
      NestedStaysInside(outer, inner, s, ops[0]);
      var first := NestedStep(outer, inner, s, ops[0]);
      var rest := NestedRun(outer, inner, first.s, ops[1..]);
      (rest.0, [first.answer] + rest.1)
  }

  ghost predicate NestedAllFit(outer: Window, inner: Window, s: State, ops: seq<Op>)
    requires BothInside(outer, inner, s) && ValidOps(ops)
    decreases |ops|
  {
    ops == [] ||
    (NestedFits(outer, inner, s, ops[0]) &&
     (NestedStaysInside(outer, inner, s, ops[0]);
      NestedAllFit(outer, inner, NestedStep(outer, inner, s, ops[0]).s, ops[1..])))
  }

  /** Every run of a window on a window is the run of one window at the summed offset, exactly when no span read that the
      outer window passes on is cut short by the inner one. */
  lemma {:induction false} NestedRunIsFlat(outer: Window, inner: Window, s: State, ops: seq<Op>)
    requires BothInside(outer, inner, s) && ValidOps(ops)
    ensures Inside(Flat(outer, inner), s)
    ensures NestedRun(outer, inner, s, ops) == Run(Flat(outer, inner), s, ops) <==> NestedAllFit(outer, inner, s, ops)
    decreases |ops|
  {
    if ops == [] { return; }
    NestedIsFlat(outer, inner, s, ops[0]);
    hide Step, NestedStep, NestedFits;
    NestedStaysInside(outer, inner, s, ops[0]);
    StaysInside(Flat(outer, inner), s, ops[0]);
    var nested, flat := NestedStep(outer, inner, s, ops[0]), Step(Flat(outer, inner), s, ops[0]);
    NestedRunIsFlat(outer, inner, nested.s, ops[1..]);
    var answers, flatAnswers := NestedRun(outer, inner, s, ops).1, Run(Flat(outer, inner), s, ops).1;
    assert answers[0] == nested.answer && flatAnswers[0] == flat.answer;
    assert answers[1..] == NestedRun(outer, inner, nested.s, ops[1..]).1;
    assert flatAnswers[1..] == Run(Flat(outer, inner), flat.s, ops[1..]).1;
  }

  // ----- What the calls do, byte by byte -----

  /** A write is carried out exactly when its range lies in the buffer and it ends inside the window. It then puts that range
      at the position, moves past it, and changes no other byte of the base stream; else it changes nothing. */
  lemma WriteExact(w: Window, s: State, buffer: seq<Byte>, at: int, count: int)
    requires Inside(w, s) && |buffer| <= INT32_MAX && IsInt32(at) && IsInt32(count)
    ensures var o := Step(w, s, Write(buffer, at, count));
      && (o.answer == Wrote <==> 0 <= at && 0 <= count && at + count <= |buffer| && s.pos + count <= w.offset + w.length)
      && (o.answer == Wrote ==>
        && |o.s.data| == |s.data| && o.s.pos == s.pos + count
        && o.s.data[s.pos..s.pos + count] == buffer[at..at + count]
        && (forall j :: 0 <= j < |s.data| && !(s.pos <= j < s.pos + count) ==> o.s.data[j] == s.data[j]))
      && (o.answer != Wrote ==> o == Outcome(s, Threw))
  {
    hide WrittenAt;
    if ValidRange(|buffer|, at, count) && s.pos + count <= w.offset + w.length {
      var bs := buffer[at..at + count];
      assert count == 0 ==> bs == [];
      if count == 0 { WrittenAtExact(s.data, s.pos, [0]); } else { WrittenAtExact(s.data, s.pos, bs); }
    }
  }

  /** A read of a valid range returns what is left in the window, at most `count` bytes, and moves past them. */
  lemma ReadExact(w: Window, s: State, n: nat, at: int, count: int)
    requires Inside(w, s) && n <= INT32_MAX && 0 <= at && 0 <= count && at + count <= n
    ensures var left := w.offset + w.length - s.pos;
      var k := if count <= left then count else left;
      Step(w, s, Read(n, at, count)) == Outcome(State(s.data, s.pos + k), Got(s.data[s.pos..s.pos + k]))
  {
    var left := w.offset + w.length - s.pos;
    var k := if count <= left then count else left;
    assert Clipped(w, s, count) == k;
    ReadAtExact(s, k);
    hide ReadAt, Clipped;
  }

  /** A span read returns what is left in the window, at most `n` bytes, where that fits 32 bits. */
  lemma ReadSpanExact(w: Window, s: State, n: nat)
    requires Inside(w, s) && n <= INT32_MAX && w.offset + w.length - s.pos <= INT32_MAX
    ensures var left := w.offset + w.length - s.pos;
      var k := if n <= left then n else left;
      Step(w, s, ReadSpan(n)) == Outcome(State(s.data, s.pos + k), Got(s.data[s.pos..s.pos + k]))
  {
    var left := w.offset + w.length - s.pos;
    var k := if n <= left then n else left;
    ReadAtExact(s, k);
    hide ReadAt;
  }

  /** Setting a position and seeking to it go there exactly when it lies in the window, and else change nothing. */
  lemma MoveExact(w: Window, s: State, value: int)
    requires Inside(w, s) && IsInt64(value)
    ensures Step(w, s, SetPosition(value)) == Step(w, s, SeekBegin(value)) ==
      if 0 <= value <= w.length then Outcome(State(s.data, w.offset + value), Moved(value)) else Outcome(s, Threw)
  {
    MoveRefines(w, s, value);
  }

  // ----- Exact limits -----

  /** The arguments the constructor accepts. */
  predicate Accepts(baseLength: int, offset: int, length: int) {
    0 <= offset < baseLength && WrapInt64(offset + length) <= baseLength
  }

  /** The window an accepted pair of arguments gives lies inside the base stream exactly when the length is not
      negative and the end does not wrap around 64 bits. */
  lemma AcceptsExact(baseLength: int, offset: int, length: int)
    requires 0 <= baseLength <= MAX_STREAM && IsInt64(offset) && IsInt64(length) && Accepts(baseLength, offset, length)
    ensures (0 <= length && offset + length <= baseLength) <==> (0 <= length && offset + length <= INT64_MAX)
  {
  }

  /** A window of non-negative length whose end is a 64-bit integer is accepted exactly when it starts before the end of the
      base stream and ends in it. */
  lemma AcceptsWindows(baseLength: int, offset: int, length: int)
    requires 0 <= baseLength <= MAX_STREAM && IsInt64(offset) && 0 <= length && offset + length <= INT64_MAX
    ensures Accepts(baseLength, offset, length) <==> 0 <= offset < baseLength && offset + length <= baseLength
  {
  }

  /** A length whose end wraps around is accepted, and so is a negative one. */
  lemma AcceptsTooMuch()
    ensures Accepts(10, 1, INT64_MAX) && Accepts(10, 1, -1)
  {
  }

  /** A window whose end lies before its start, wrapped or not, refuses every move. */
  lemma WrappedEndRefusesMoves(w: Window, s: State, value: int)
    requires Ready(s) && 0 <= w.offset && WrapInt64(w.offset + w.length) < w.offset
    ensures Step(w, s, SetPosition(value)).answer == Threw && Step(w, s, SeekBegin(value)).answer == Threw
  {
  }

  /** The skip loop of the constructor, whose counter is a 32-bit integer, ends exactly when the number of chunks is one. */
  lemma SkipLoopEnds(chunkCount: nat)
    ensures (exists k: nat :: WrapInt32(k) >= chunkCount) <==> chunkCount <= INT32_MAX
  {
    assert chunkCount <= INT32_MAX ==> WrapInt32(chunkCount) == chunkCount;
  }

  /** `Read` cuts the count before the buffer is checked: it answers as a stream of its own exactly when the range lies
      in the buffer, or fails to even after the cut. */
  lemma ReadArgumentsExact(w: Window, s: State, n: nat, at: int, count: int)
    requires Inside(w, s) && n <= INT32_MAX && IsInt32(at) && IsInt32(count)
    ensures Step(w, s, Read(n, at, count)).answer == AloneStep(Seen(w, s), Read(n, at, count)).answer
       <==> (ValidRange(n, at, count) || !ValidRange(n, at, Clipped(w, s, count)))
  {
    hide ReadAt;
    if ValidRange(n, at, count) {
      StepRefines(w, s, Read(n, at, count));
    }
  }

  /** At the end of any window, a count too large for the buffer is not noticed. */
  lemma ReadHidesBadCount(w: Window, s: State, n: nat, count: int)
    requires Inside(w, s) && s.pos == w.offset + w.length && n < count
    ensures Step(w, s, Read(n, 0, count)).answer == Got([]) && AloneStep(Seen(w, s), Read(n, 0, count)).answer == Threw
  {
    assert Clipped(w, s, count) == 0;
    assert ReadAt(s, 0) == [];
    hide ReadAt, Clipped;
  }

  /** With `2^32` bytes left in the window, a span of one byte reads nothing. */
  lemma SpanReadsNothing()
    ensures var w, s := Window(0, 0x1_0000_0000), State(Zeros(0x1_0000_0000), 0);
      Inside(w, s) && SpanRead(w, s, 1).answer == Got([]) && |ReadAt(Seen(w, s), 1)| == 1
  {
    LongWindow(0x1_0000_0000);
  }

  lemma LongWindow(n: nat)
    requires n == 0x1_0000_0000
    ensures var w, s := Window(0, n), State(Zeros(n), 0);
      Inside(w, s) && SpanRead(w, s, 1).answer == Got([]) && |ReadAt(Seen(w, s), 1)| == 1
  {
    assert WrapInt32(n) == 0;
  }

  /** Through a window with `2^32` bytes left, a window with one byte left does not read it into a span. */
  lemma NestedSpanReadsNothing(outer: Window, inner: Window, s: State)
    requires BothInside(outer, inner, s)
    requires inner.length - (s.pos - inner.offset) == 0x1_0000_0000
    requires outer.length - (s.pos - inner.offset - outer.offset) == 1
    ensures NestedStep(outer, inner, s, ReadSpan(1)).answer == Got([])
    ensures Step(Flat(outer, inner), s, ReadSpan(1)).answer == Got([s.data[s.pos]])
  {
    assert WrapInt32(0x1_0000_0000) == 0 && WrapInt32(1) == 1;
    hide WrapInt32;
    assert ReadAt(s, 0) == [] && ReadAt(s, 1) == [s.data[s.pos]];
    hide ReadAt;
  }

  /** Such windows exist. */
  lemma NestedWindows(n: nat)
    requires n == 0x1_0000_0000
    ensures BothInside(Window(0, 1), Window(0, n), State(Zeros(n), 0))
  {
  }

  lemma ReadAvailable(s: State, count: nat)
    requires Ready(s) && s.pos + count <= |s.data|
    ensures |ReadAt(s, count)| == count
  {
  }

  lemma CastBelow(n: nat)
    ensures WrapInt32(n) <= n
    ensures n > INT32_MAX ==> WrapInt32(n) < n
  {
  }

  // ----- The class -----

  class SubStream {
    const baseStream: Stream
    var offset: int
    var length: int

    function View(): (Window, State)
      reads this, baseStream
    {
      (Window(offset, length), baseStream.View())
    }

    /** The constructor's argument checks: `None` when it throws, and then the base stream is as it was. */
    static method Create(baseStream: Stream, offset: int, length: int) returns (r: Option<SubStream>)
      requires Ready(baseStream.View()) && IsInt64(offset) && IsInt64(length)
      modifies baseStream
      ensures r.Some? <==> Accepts(|old(baseStream.data)|, offset, length)
      ensures baseStream.data == old(baseStream.data)
      ensures r.None? ==> baseStream.position == old(baseStream.position)
      ensures r.Some? ==>
        && r.value.View() == (Window(offset, length), baseStream.View()) && r.value.baseStream == baseStream
        && (baseStream.canSeek || old(baseStream.position) == 0 ==> baseStream.position == offset)
    {
      if offset < 0 {
        return None;
      }
      if offset >= |baseStream.data| {
        return None;
      }
      if WrapInt64(offset + length) > |baseStream.data| {
        return None;
      }
      var s := new SubStream(baseStream, offset, length);
      return Some(s);
    }

    /** Moves the base stream to the offset; a stream that cannot seek is read in chunks up to it. */
    constructor (baseStream: Stream, offset: int, length: int)
      requires Ready(baseStream.View()) && 0 <= offset < |baseStream.data|
      modifies baseStream
      ensures this.baseStream == baseStream && this.offset == offset && this.length == length
      ensures baseStream.data == old(baseStream.data)
      ensures baseStream.canSeek || old(baseStream.position) == 0 ==> baseStream.position == offset
    {
      this.baseStream := baseStream;
      this.offset := offset;
      this.length := length;
      new;
      if baseStream.canSeek {
        var moved := baseStream.SetPosition(offset);
      } else {
        var buffer := new Byte[4096](_ => 0);
        var chunkCount := offset / 4096;
        var remainder := offset % 4096;
        for i := 0 to chunkCount
          invariant baseStream.data == old(baseStream.data) && Ready(baseStream.View())
          invariant old(baseStream.position) == 0 ==> baseStream.position == 4096 * i
          invariant this.offset == offset && this.length == length
        {
          var n := baseStream.Read(buffer, 0, 4096);
        }
        if remainder > 0 {
          var n := baseStream.Read(buffer, 0, remainder);
        }
      }
    }

    method SetPosition(value: int) returns (ok: bool)
      requires Ready(baseStream.View()) && IsInt64(value)
      modifies baseStream`position
      ensures var o := Step(old(View()).0, old(View()).1, Op.SetPosition(value));
        View() == (old(View()).0, o.s) && ok == !o.answer.Threw?
    {
      var newPosition := WrapInt64(offset + value);
      if newPosition < offset {
        return false;
      }
      if newPosition > WrapInt64(offset + length) {
        return false;
      }
      ok := baseStream.SetPosition(newPosition);
    }

    /** `Seek` from the beginning; returns the position reached. */
    method SeekBegin(value: int) returns (reached: Option<int>)
      requires Ready(baseStream.View()) && IsInt64(value)
      modifies baseStream`position
      ensures var o := Step(old(View()).0, old(View()).1, Op.SeekBegin(value));
        View() == (old(View()).0, o.s) && o.answer == if reached.None? then Threw else Moved(reached.value)
    {
      var newPosition := WrapInt64(offset + value);
      if newPosition < offset {
        return None;
      }
      if newPosition > WrapInt64(offset + length) {
        return None;
      }
      var ok := baseStream.SetPosition(newPosition);
      if !ok {
        return None;
      }
      return Some(baseStream.position - offset);
    }

    method Read(buffer: array<Byte>, at: int, count: int) returns (n: Option<nat>)
      requires Ready(baseStream.View())
      modifies baseStream`position, buffer
      ensures var o := Step(old(View()).0, old(View()).1, Op.Read(buffer.Length, at, count));
        && View() == (old(View()).0, o.s)
        && (n.None? ==> o.answer == Threw && buffer[..] == old(buffer[..]))
        && (n.Some? ==> (o.answer.Got? && n.value == |o.answer.bytes| && at >= 0 && at + n.value <= buffer.Length
          && buffer[..] == old(buffer[..])[..at] + o.answer.bytes + old(buffer[..])[at + n.value..]))
    {
      var possible := length - (baseStream.position - offset);
      var c := count;
      if c > possible {
        c := WrapInt32(possible);
      }
      n := baseStream.Read(buffer, at, c);
    }

    /** `Read(Span<byte>)`, with the span as an array. */
    method ReadSpan(span: array<Byte>) returns (n: Option<nat>)
      requires Ready(baseStream.View())
      modifies baseStream`position, span
      ensures var o := Step(old(View()).0, old(View()).1, Op.ReadSpan(span.Length));
        && View() == (old(View()).0, o.s)
        && (n.None? ==> o.answer == Threw && span[..] == old(span[..]))
        && (n.Some? ==> o.answer.Got? && n.value == |o.answer.bytes| <= span.Length && span[..n.value] == o.answer.bytes)
    {
      var possible := WrapInt32(length - (baseStream.position - offset));
      if span.Length > possible {
        if possible < 0 {
          return None;
        }
        var bytes := new Byte[possible](_ => 0);
        n := baseStream.Read(bytes, 0, possible);
        forall i | 0 <= i < possible {
          span[i] := bytes[i];
        }
        assert span[..n.value] == bytes[..n.value];
      } else {
        n := baseStream.Read(span, 0, span.Length);
      }
    }

    method Write(buffer: seq<Byte>, at: int, count: int) returns (ok: bool)
      requires Ready(baseStream.View())
      modifies baseStream
      ensures var o := Step(old(View()).0, old(View()).1, Op.Write(buffer, at, count));
        View() == (old(View()).0, o.s) && ok == o.answer.Wrote?
    {
      if WrapInt64(baseStream.position + count) > WrapInt64(offset + length) {
        return false;
      }
      ok := baseStream.Write(buffer, at, count);
    }

    /** A growing `SetLength` extends the base stream with zeros if the window would pass its end; the bytes already
        there are kept, and the window stays inside. */
    method SetLength(value: int)
      requires Inside(View().0, View().1) && length <= value && offset + value <= MAX_STREAM
      modifies this`length, baseStream
      ensures length == value && offset == old(offset) && Inside(View().0, View().1)
      ensures |baseStream.data| == if offset + value > |old(baseStream.data)| then offset + value else |old(baseStream.data)|
      ensures old(baseStream.data) <= baseStream.data && baseStream.position == old(baseStream.position)
      ensures forall i :: |old(baseStream.data)| <= i < |baseStream.data| ==> baseStream.data[i] == 0
    {
      var baseLength := WrapInt64(offset + value);
      if baseLength > |baseStream.data| {
        baseStream.SetLength(baseLength);
      }
      length := value;
    }
  }
}
