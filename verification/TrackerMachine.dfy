/** The tracking allocator as a machine: what each call does to the dictionary of blocks and to the native heap.

    The native heap is abstract: it hands out any address that is not in use, or runs out of memory. */
module TrackerMachine {
  import opened FixedWidth
  import opened TypedValues

  type Addr = int

  datatype Info = Info(file: string, line: int, bytes: nat, ptr: Addr, skip: bool, count: int)

  datatype ProblemType = Leaked | MultipleFree

  datatype Problem = Problem(kind: ProblemType, size: nat, freeCount: int, file: string, line: int)

  /** What the native heap was asked to do. Moving a block releases one address and acquires another. */
  datatype NativeOp = Acquire(a: Addr) | Release(a: Addr)

  datatype State = State(tracking: bool, memory: map<Addr, Info>, live: set<Addr>, trace: seq<NativeOp>)

  /** Every call and every step of `Finish`, with the answers of the native heap (`None`: out of memory)
      and the order in which the dictionary is enumerated. */
  datatype Event =
    | Malloc(num: nat, file: string, line: int, got: Option<Addr>)
    | Free(addr: Addr)
    | Realloc(addr: Addr, num: nat, file: string, line: int, got: Option<Addr>)
    | Start
    | StopTracking
    | Flush(order: seq<Addr>)

  const INITIAL := State(false, map[], {}, [])

  function NewBlock(p: Addr, num: nat, file: string, line: int): Info {
    Info(file, line, num, p, false, 0)
  }

  function DoMalloc(s: State, num: nat, file: string, line: int, got: Option<Addr>): State {
    match got
    case None => s
    case Some(p) =>
      s.(memory := s.memory[p := NewBlock(p, num, file, line)], live := s.live + {p}, trace := s.trace + [Acquire(p)])
  }

  /** While tracking, a free only counts, in 32 bits. */
  function DoFree(s: State, a: Addr): State {
    if a !in s.memory then s
    else if s.tracking then
      s.(memory := s.memory[a := s.memory[a].(count := WrapInt32(s.memory[a].count + 1))])
    else s.(memory := s.memory - {a}, live := s.live - {a}, trace := s.trace + [Release(a)])
  }

  /** The old block leaves the dictionary before the native call, even if that call then fails. */
  function DoRealloc(s: State, a: Addr, num: nat, file: string, line: int, got: Option<Addr>): State {
    if a !in s.memory then DoMalloc(s, num, file, line, got)
    else match got
      case None => s.(memory := s.memory - {a})
      case Some(p) =>
        s.(memory := (s.memory - {a})[p := NewBlock(p, num, file, line)],
           live := s.live - {a} + {p}, trace := s.trace + [Release(a), Acquire(p)])
  }

  function DoStart(s: State): State {
    s.(tracking := true, memory := map a | a in s.memory :: s.memory[a].(skip := true))
  }

  // ----- Flush -----

  predicate Doomed(i: Info) {
    !i.skip && i.count > 0
  }

  function Marked(i: Info): Info {
    if !i.skip && i.count == 0 then i.(skip := true) else i
  }

  predicate Reported(i: Info) {
    !i.skip && (i.count == 0 || i.count > 1)
  }

  function ProblemOf(i: Info): Problem {
    Problem(if i.count == 0 then Leaked else MultipleFree, i.bytes, i.count, i.file, i.line)
  }

  /** The problems, in the order of enumeration. */
  function Report(m: map<Addr, Info>, order: seq<Addr>): seq<Problem>
    requires forall i :: 0 <= i < |order| ==> order[i] in m
  {
    if order == [] then []
    else
      var last := order[|order| - 1];
      Report(m, order[..|order| - 1]) + if Reported(m[last]) then [ProblemOf(m[last])] else []
  }

  /** The blocks to free, in the order of enumeration. */
  function DoomedIn(m: map<Addr, Info>, order: seq<Addr>): seq<Addr>
    requires forall i :: 0 <= i < |order| ==> order[i] in m
  {
    if order == [] then []
    else
      var last := order[|order| - 1];
      DoomedIn(m, order[..|order| - 1]) + if Doomed(m[last]) then [last] else []
  }

  function Releases(doomed: seq<Addr>): (ops: seq<NativeOp>)
    ensures |ops| == |doomed| && forall i :: 0 <= i < |doomed| ==> ops[i] == Release(doomed[i])
  {
    seq(|doomed|, i requires 0 <= i < |doomed| => Release(doomed[i]))
  }

  function Kept(m: map<Addr, Info>): map<Addr, Info> {
    map a | a in m && !Doomed(m[a]) :: Marked(m[a])
  }

  function DoFlush(s: State, order: seq<Addr>): State
    requires forall i :: 0 <= i < |order| ==> order[i] in s.memory
  {
    s.(memory := Kept(s.memory),
       live := s.live - (set a | a in s.memory && Doomed(s.memory[a])),
       trace := s.trace + Releases(DoomedIn(s.memory, order)))
  }

  ghost predicate NoDuplicates<T>(s: seq<T>) {
    forall i, j :: 0 <= i < j < |s| ==> s[i] != s[j]
  }

  /** Every key exactly once. */
  ghost predicate Enumerates(order: seq<Addr>, keys: set<Addr>) {
    NoDuplicates(order) && (forall i :: 0 <= i < |order| ==> order[i] in keys) && (forall a :: a in keys ==> a in order)
  }

  /** The blocks to free are the doomed ones, each once. */
  lemma {:induction false} DoomedOnce(m: map<Addr, Info>, order: seq<Addr>)
    requires NoDuplicates(order) && forall i :: 0 <= i < |order| ==> order[i] in m
    ensures forall a :: a in DoomedIn(m, order) <==> a in order && Doomed(m[a])
    ensures NoDuplicates(DoomedIn(m, order))
  {
    if order != [] {
      var init, last := order[..|order| - 1], order[|order| - 1];
      DoomedOnce(m, init);
      assert order == init + [last];
      var doomed := DoomedIn(m, init);
      assert DoomedIn(m, order) == doomed + if Doomed(m[last]) then [last] else [];
      hide DoomedIn;
      assert last !in init;
      assert last !in doomed;
      assert forall i :: 0 <= i < |doomed| ==> doomed[i] in doomed;
    }
  }

  lemma SomeElement(s: set<Addr>)
    requires s != {}
    ensures exists a :: a in s
  {
    assert (forall a :: a !in s) ==> s == {};
  }

  // ----- Runs -----

  /** The native heap only hands out addresses that are not in use. */
  ghost predicate Legal(s: State, e: Event) {
    match e
    case Malloc(_, _, _, got) => got.Some? ==> got.value !in s.live
    case Realloc(a, _, _, _, got) => got.Some? ==> got.value !in s.live - (if a in s.memory then {a} else {})
    case Flush(order) => Enumerates(order, s.memory.Keys)
    case _ => true
  }

  function Step(s: State, e: Event): State
    requires e.Flush? ==> forall i :: 0 <= i < |e.order| ==> e.order[i] in s.memory
  {
    match e
    case Malloc(num, file, line, got) => DoMalloc(s, num, file, line, got)
    case Free(a) => DoFree(s, a)
    case Realloc(a, num, file, line, got) => DoRealloc(s, a, num, file, line, got)
    case Start => DoStart(s)
    case StopTracking => s.(tracking := false)
    case Flush(order) => DoFlush(s, order)
  }

  /** Every event of the run is legal when it happens. */
  ghost predicate LegalRun(s: State, es: seq<Event>)
    decreases |es|
  {
    es == [] || (Legal(s, es[0]) && LegalRun(Step(s, es[0]), es[1..]))
  }

  ghost function Run(s: State, es: seq<Event>): State
    requires LegalRun(s, es)
    decreases |es|
  {
    if es == [] then s else Run(Step(s, es[0]), es[1..])
  }

  lemma {:induction false} RunSplit(s: State, a: seq<Event>, b: seq<Event>)
    ensures LegalRun(s, a + b) <==> LegalRun(s, a) && LegalRun(Run(s, a), b)
    ensures LegalRun(s, a + b) ==> Run(s, a + b) == Run(Run(s, a), b)
    decreases |a|
  {
    hide Step;
    if a == [] {
      assert a + b == b;
    } else {
      assert (a + b)[1..] == a[1..] + b && (a + b)[0] == a[0];
      if Legal(s, a[0]) { RunSplit(Step(s, a[0]), a[1..], b); }
    }
  }

  lemma RunOne(s: State, e: Event)
    ensures LegalRun(s, [e]) <==> Legal(s, e)
    ensures Legal(s, e) ==> Run(s, [e]) == Step(s, e)
  {
    assert [e][1..] == [];
  }

  lemma RunFirst(s: State, es: seq<Event>)
    requires es != [] && Legal(s, es[0]) && LegalRun(Step(s, es[0]), es[1..])
    ensures LegalRun(s, es) && Run(s, es) == Run(Step(s, es[0]), es[1..])
  {
  }
}
