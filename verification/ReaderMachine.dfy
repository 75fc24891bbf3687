/** What the memory reader does to its cursor and returns, as functions of its state. */
module ReaderMachine {
  import opened FixedWidth
  import opened ByteOrder
  import opened TypedValues

  datatype State = State(hostLittle: bool, bytes: seq<Byte>, pos: int, bigEndian: bool, steps: seq<int>)

  /** `value` is `None` when the call threw; `s` is the state it left behind either way. */
  datatype Got<+T> = Got(s: State, value: Option<T>)

  ghost predicate Ready(s: State) {
    && |s.bytes| <= MAX_LENGTH
    && 0 <= s.pos <= |s.bytes|
    && forall i :: 0 <= i < |s.steps| ==> 0 <= s.steps[i] <= |s.bytes|
  }

  function At(s: State, pos: int): State {
    s.(pos := pos)
  }

  /** `Read<T>` for a type of `n` bytes: its memory image. */
  function Raw(s: State, n: nat): (g: Got<seq<Byte>>)
    requires Ready(s)
    ensures Ready(g.s) && g.s == At(s, g.s.pos)
    ensures g.value.Some? ==> |g.value.value| == n
  {
    if s.pos + n > |s.bytes| then Got(s, None)
    else Got(At(s, s.pos + n), Some(s.bytes[s.pos..s.pos + n]))
  }

  /** `ReadEndian`. */
  function Bits(s: State, w: nat): (g: Got<nat>)
    requires Ready(s)
    ensures Ready(g.s) && g.s == At(s, g.s.pos)
  {
    var raw := Raw(s, w);
    Got(raw.s, if raw.value.None? then None else Some(LoadedValue(s.hostLittle, s.bigEndian, raw.value.value)))
  }

  /** `n` numbers of `w` bytes, one after the other, until one throws. */
  function ManyBits(s: State, w: nat, n: nat): (g: Got<seq<nat>>)
    requires Ready(s)
    ensures Ready(g.s) && g.s == At(s, g.s.pos)
    ensures g.value.Some? ==> |g.value.value| == n
  {
    if n == 0 then Got(s, Some([]))
    else
      var init := ManyBits(s, w, n - 1);
      if init.value.None? then init
      else
        var last := Bits(init.s, w);
        Got(last.s, if last.value.None? then None else Some(init.value.value + [last.value.value]))
  }

  /** The numbers a host sees in consecutive images of `w` bytes; a remainder is dropped. */
  function HostNumbers(hostLittle: bool, w: nat, bs: seq<Byte>): seq<nat>
    requires w > 0
  {
    if |bs| < w then [] else [HostValue(hostLittle, bs[..w])] + HostNumbers(hostLittle, w, bs[w..])
  }

  function ReadOne(s: State, k: Kind): (g: Got<Value>)
    requires Ready(s)
    ensures Ready(g.s) && g.s == At(s, g.s.pos)
  {
    if k.IsInteger() && k.Size() == 1 then
      var g := OneByte(s);
      Got(g.s, if g.value.None? then None else Some(Integer(k, Denoted(k.IsSigned(), 1, g.value.value))))
    else if k.IsInteger() then
      var g := Bits(s, k.Size());
      Got(g.s, if g.value.None? then None else Some(Integer(k, Denoted(k.IsSigned(), k.Size(), g.value.value))))
    else if k.IsFloat() then
      var g := Bits(s, k.Size());
      Got(g.s, if g.value.None? then None else Some(Float(k, g.value.value)))
    else if k.IsVector() then
      if MustSwap(s.hostLittle, s.bigEndian) then
        var g := ManyBits(s, 4, k.Components());
        Got(g.s, if g.value.None? then None else Some(Vector(k, g.value.value)))
      else
        var g := Raw(s, k.Size());
        Got(g.s, if g.value.None? then None else Some(Vector(k, HostNumbers(s.hostLittle, 4, g.value.value))))
    else
      var g := OneByte(s);
      Got(g.s, if g.value.None? || g.value.value > 1 then None else Some(Bool(g.value.value == 1)))
  }

  function OneByte(s: State): (g: Got<Byte>)
    requires Ready(s)
    ensures Ready(g.s) && g.s == At(s, g.s.pos)
  {
    var raw := Raw(s, 1);
    Got(raw.s, if raw.value.None? then None else Some(raw.value.value[0]))
  }

  /** Values of the given kinds, until one throws. */
  function ReadMany(s: State, kinds: seq<Kind>): (g: Got<seq<Value>>)
    requires Ready(s)
    ensures Ready(g.s) && g.s == At(s, g.s.pos)
    ensures g.value.Some? ==> |g.value.value| == |kinds|
    decreases |kinds|
  {
    if kinds == [] then Got(s, Some([]))
    else
      var first := ReadOne(s, kinds[0]);
      if first.value.None? then Got(first.s, None)
      else
        var rest := ReadMany(first.s, kinds[1..]);
        Got(rest.s, if rest.value.None? then None else Some([first.value.value] + rest.value.value))
  }

  // ----- Spans -----

  /** `ReadSpan<T>(count)`: the byte size is computed with 32-bit wrap-around, then checked twice. */
  function SpanBytes(s: State, size: nat, count: int): (g: Got<seq<Byte>>)
    requires Ready(s)
    ensures Ready(g.s) && g.s == At(s, g.s.pos)
  {
    var length := WrapInt32(size * count);
    if WrapInt32(s.pos + length) > |s.bytes| || length < 0 || s.pos + length > |s.bytes| then Got(s, None)
    else Got(At(s, s.pos + length), Some(s.bytes[s.pos..s.pos + length]))
  }

  /** `ReadArrayEndian<T>(count)`. */
  function ArrayBits(s: State, w: nat, count: int): (g: Got<seq<nat>>)
    requires Ready(s) && w > 0
    ensures Ready(g.s) && g.s == At(s, g.s.pos)
  {
    if MustSwap(s.hostLittle, s.bigEndian) then
      if count < 0 then Got(s, None) else ManyBits(s, w, count)
    else
      var g := SpanBytes(s, w, count);
      Got(g.s, if g.value.None? then None else Some(HostNumbers(s.hostLittle, w, g.value.value)))
  }

  /** Numbers regrouped `n` at a time; a remainder is dropped. */
  function Grouped(n: nat, c: seq<nat>): seq<seq<nat>>
    requires n > 0
  {
    if |c| < n then [] else [c[..n]] + Grouped(n, c[n..])
  }

  /** `ReadVector2s` to `ReadQuaternions`: components, then reinterpreted as vectors. */
  function VectorArray(s: State, k: Kind, count: int): (g: Got<seq<seq<nat>>>)
    requires Ready(s) && k.IsVector()
    ensures Ready(g.s) && g.s == At(s, g.s.pos)
  {
    var n := k.Components();
    if MustSwap(s.hostLittle, s.bigEndian) then
      var components := WrapInt32(count * n);
      if components < 0 then Got(s, None)
      else
        var g := ManyBits(s, 4, components);
        Got(g.s, if g.value.None? then None else Some(Grouped(n, g.value.value)))
    else
      var g := SpanBytes(s, k.Size(), count);
      Got(g.s, if g.value.None? then None else Some(Grouped(n, HostNumbers(s.hostLittle, 4, g.value.value))))
  }

  // ----- Terminated strings -----

  /** `u` zero bytes stand at `at`. */
  predicate ZeroUnit(bytes: seq<Byte>, at: int, u: nat) {
    0 <= at && at + u <= |bytes| && forall i :: at <= i < at + u ==> bytes[i] == 0
  }

  /** Units of `u` bytes up to the first zero unit. A reader that takes single bytes stops at the end
      when there is none; one that takes whole units stops before the last partial unit. */
  function Terminated(s: State, u: nat, singly: bool): (g: Got<seq<Byte>>)
    requires Ready(s)
    ensures Ready(g.s) && g.s == At(s, g.s.pos)
    decreases |s.bytes| - s.pos
  {
    if s.pos + u > |s.bytes| then Got(At(s, if singly then |s.bytes| else s.pos), None)
    else
      var next := At(s, s.pos + u);
      if ZeroUnit(s.bytes, s.pos, u) then Got(next, Some([]))
      else
        var rest := Terminated(next, u, singly);
        Got(rest.s, if rest.value.None? then None else Some(s.bytes[s.pos..s.pos + u] + rest.value.value))
  }

  // ----- Positioned reads -----

  /** The setter compares and stores only the low 32 bits. */
  function Positioned(s: State, target: int): (g: Got<()>)
    requires Ready(s)
    ensures Ready(g.s)
  {
    var low := target % 0x1_0000_0000;
    if low <= |s.bytes| then Got(At(s, low), Some(())) else Got(s, None)
  }

  /** `Get`: a read elsewhere; the cursor comes back only if nothing threw. */
  function ValueAt(s: State, k: Kind, target: int): (g: Got<Value>)
    requires Ready(s)
    ensures Ready(g.s)
  {
    var there := Positioned(s, target);
    if there.value.None? then Got(s, None)
    else
      var g := ReadOne(there.s, k);
      if g.value.None? then g else Got(s, g.value)
  }

  /** `Peek`: a read whose move is undone if nothing threw. */
  function Peeked(s: State, k: Kind): (g: Got<Value>)
    requires Ready(s)
    ensures Ready(g.s)
  {
    var g := ReadOne(s, k);
    if g.value.None? then g else Got(s, g.value)
  }

  // ----- Variable-width integers -----

  /** `ReadSignedVarVals` and `ReadUnsignedVarVals` for widths below 8 loop over scalar reads; width 8 takes
      the array path. */
  function VarArray(s: State, k: Kind, count: int): (g: Got<seq<int>>)
    requires Ready(s) && k.IsInteger()
    ensures Ready(g.s) && g.s == At(s, g.s.pos)
  {
    var g := if k.Size() == 8 then ArrayBits(s, 8, count)
      else if count < 0 then Got(s, None)
      else ManyBits(s, k.Size(), count);
    Got(g.s, if g.value.None? then None else Some(AllDenoted(k, g.value.value)))
  }

  function AllDenoted(k: Kind, bits: seq<nat>): (r: seq<int>)
    ensures |r| == |bits|
    ensures forall i :: 0 <= i < |bits| ==> r[i] == Denoted(k.IsSigned(), k.Size(), bits[i])
  {
    seq(|bits|, i requires 0 <= i < |bits| => Denoted(k.IsSigned(), k.Size(), bits[i]))
  }
}
