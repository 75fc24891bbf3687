/** What holds of the native heap and of the dictionary of blocks in every run, and what `Flush` does to them. */
module TrackerHistory {
  import opened FixedWidth
  import opened TypedValues
  import opened TrackerMachine

  // ----- The native heap over whole runs -----

  /** Before step `k` of the trace, `a` was acquired and not released since. */
  ghost predicate Held(trace: seq<NativeOp>, k: int, a: Addr) {
    exists j :: 0 <= j < k && j < |trace| && trace[j] == Acquire(a) && NotReleased(trace, j, k, a)
  }

  ghost predicate NotReleased(trace: seq<NativeOp>, j: int, k: int, a: Addr) {
    forall m :: j < m < k && 0 <= m < |trace| ==> trace[m] != Release(a)
  }

  /** Only held addresses are released, and only unheld ones acquired. */
  ghost predicate Disciplined(trace: seq<NativeOp>) {
    forall k :: 0 <= k < |trace| ==> (Held(trace, k, trace[k].a) <==> trace[k].Release?)
  }

  /** Holds in every reachable state: each block is filed under its own live address with a 32-bit count, and the live
      addresses are those the trace holds. */
  ghost predicate Inv(s: State) {
    && (forall a :: a in s.memory ==> s.memory[a].ptr == a && a in s.live && IsInt32(s.memory[a].count))
    && Disciplined(s.trace)
    && forall a :: a in s.live <==> Held(s.trace, |s.trace|, a)
  }

  lemma HeldPrefix(trace: seq<NativeOp>, op: NativeOp, k: nat, a: Addr)
    requires k <= |trace|
    ensures Held(trace + [op], k, a) <==> Held(trace, k, a)
  {
    var longer := trace + [op];
    if Held(trace, k, a) {
      var j :| 0 <= j < k && j < |trace| && trace[j] == Acquire(a) && NotReleased(trace, j, k, a);
      assert longer[j] == Acquire(a) && NotReleased(longer, j, k, a);
    }
    if Held(longer, k, a) {
      var j :| 0 <= j < k && j < |longer| && longer[j] == Acquire(a) && NotReleased(longer, j, k, a);
      assert trace[j] == Acquire(a);
      forall m | j < m < k && 0 <= m < |trace| ensures trace[m] != Release(a) { assert longer[m] == trace[m]; }
      assert NotReleased(trace, j, k, a);
    }
  }

  lemma HeldNext(trace: seq<NativeOp>, op: NativeOp, a: Addr)
    ensures Held(trace + [op], |trace| + 1, a) <==> op == Acquire(a) || (Held(trace, |trace|, a) && op != Release(a))
  {
    var longer, n := trace + [op], |trace|;
    if op == Acquire(a) {
      assert longer[n] == Acquire(a) && NotReleased(longer, n, n + 1, a);
    } else if Held(trace, n, a) && op != Release(a) {
      var j :| 0 <= j < n && j < |trace| && trace[j] == Acquire(a) && NotReleased(trace, j, n, a);
      assert longer[j] == Acquire(a) && NotReleased(longer, j, n + 1, a);
    }
    if Held(longer, n + 1, a) && op != Acquire(a) {
      var j :| 0 <= j < n + 1 && j < |longer| && longer[j] == Acquire(a) && NotReleased(longer, j, n + 1, a);
      assert longer[n] == op;
      assert trace[j] == Acquire(a);
      forall m | j < m < n && 0 <= m < |trace| ensures trace[m] != Release(a) { assert longer[m] == trace[m]; }
      assert NotReleased(trace, j, n, a);
    }
  }

  lemma DisciplinedNext(trace: seq<NativeOp>, op: NativeOp)
    requires Disciplined(trace)
    requires op.Acquire? ==> !Held(trace, |trace|, op.a)
    requires op.Release? ==> Held(trace, |trace|, op.a)
    ensures Disciplined(trace + [op])
  {
    hide Held;
    var longer := trace + [op];
    forall k | 0 <= k < |longer| ensures Held(longer, k, longer[k].a) <==> longer[k].Release? {
      HeldPrefix(trace, op, k, longer[k].a);
      if k < |trace| { assert longer[k] == trace[k]; }
    }
  }

  /** The live set follows the trace. */
  ghost predicate Follows(trace: seq<NativeOp>, live: set<Addr>) {
    Disciplined(trace) && forall a :: a in live <==> Held(trace, |trace|, a)
  }

  lemma AcquireFollows(trace: seq<NativeOp>, live: set<Addr>, p: Addr)
    requires Follows(trace, live) && p !in live
    ensures Follows(trace + [Acquire(p)], live + {p})
  {
    hide Held, Disciplined;
    DisciplinedNext(trace, Acquire(p));
    forall a ensures a in live + {p} <==> Held(trace + [Acquire(p)], |trace| + 1, a) {
      HeldNext(trace, Acquire(p), a);
    }
  }

  lemma ReleaseFollows(trace: seq<NativeOp>, live: set<Addr>, p: Addr)
    requires Follows(trace, live) && p in live
    ensures Follows(trace + [Release(p)], live - {p})
  {
    hide Held, Disciplined;
    DisciplinedNext(trace, Release(p));
    forall a ensures a in live - {p} <==> Held(trace + [Release(p)], |trace| + 1, a) {
      HeldNext(trace, Release(p), a);
    }
  }

  lemma {:induction false} ReleasesFollow(trace: seq<NativeOp>, live: set<Addr>, doomed: seq<Addr>)
    requires Follows(trace, live) && NoDuplicates(doomed) && forall i :: 0 <= i < |doomed| ==> doomed[i] in live
    ensures Follows(trace + Releases(doomed), live - (set a | a in doomed))
  {
    hide Follows;
    if doomed == [] {
      assert trace + Releases(doomed) == trace;
      assert live - (set a | a in doomed) == live;
    } else {
      var n := |doomed| - 1;
      var init, last := doomed[..n], doomed[n];
      ReleasesFollow(trace, live, init);
      assert doomed == init + [last];
      assert last !in init;
      var live' := live - (set a | a in init);
      ReleaseFollows(trace + Releases(init), live', last);
      assert trace + Releases(init) + [Release(last)] == trace + Releases(doomed);
      assert live' - {last} == live - (set a | a in doomed);
    }
  }

  lemma FlushInv(s: State, order: seq<Addr>)
    requires Inv(s) && Enumerates(order, s.memory.Keys)
    ensures Inv(DoFlush(s, order))
  {
    hide Held, Disciplined;
    assert Follows(s.trace, s.live);
    var doomed := DoomedIn(s.memory, order);
    DoomedOnce(s.memory, order);
    forall a ensures a in doomed <==> a in s.memory && Doomed(s.memory[a]) {
      if a in order {
        var j :| 0 <= j < |order| && order[j] == a;
      }
    }
    forall i | 0 <= i < |doomed| ensures doomed[i] in s.live {
      var a := doomed[i];
      assert a in doomed;
      assert a in s.memory;
    }
    ReleasesFollow(s.trace, s.live, doomed);
    assert (set a | a in doomed) == (set a | a in s.memory && Doomed(s.memory[a]));
  }

  lemma StepInv(s: State, e: Event)
    requires Inv(s) && Legal(s, e)
    ensures Inv(Step(s, e))
  {
    hide Held, Disciplined;
    assert Follows(s.trace, s.live);
    match e {
      case Malloc(_, _, _, got) =>
        if got.Some? { AcquireFollows(s.trace, s.live, got.value); }
      case Free(a) =>
        if a in s.memory && !s.tracking { ReleaseFollows(s.trace, s.live, a); }
      case Realloc(a, _, _, _, got) =>
        if got.Some? {
          if a in s.memory {
            ReleaseFollows(s.trace, s.live, a);
            AcquireFollows(s.trace + [Release(a)], s.live - {a}, got.value);
            assert s.trace + [Release(a)] + [Acquire(got.value)] == s.trace + [Release(a), Acquire(got.value)];
          } else {
            AcquireFollows(s.trace, s.live, got.value);
          }
        }
      case Flush(order) => FlushInv(s, order);
      case Start =>
      case StopTracking =>
    }
  }

  lemma {:induction false} RunInv(s: State, es: seq<Event>)
    requires Inv(s) && LegalRun(s, es)
    ensures Inv(Run(s, es))
    decreases |es|
  {
    hide Inv, Legal, Step;
    if es != [] {
      StepNeeds(s, es[0]);
      StepInv(s, es[0]);
      RunInv(Step(s, es[0]), es[1..]);
    }
  }

  lemma StepNeeds(s: State, e: Event)
    requires Legal(s, e)
    ensures e.Flush? ==> forall i :: 0 <= i < |e.order| ==> e.order[i] in s.memory
  {
  }

  lemma InitialInv()
    ensures Inv(INITIAL)
  {
  }

  /** Every interleaving of calls and steps of `Finish` keeps each block filed under its own live address, and never
      releases an address that is not held nor acquires one that is. */
  lemma ReachableInv(es: seq<Event>)
    requires LegalRun(INITIAL, es)
    ensures Inv(Run(INITIAL, es))
  {
    InitialInv();
    RunInv(INITIAL, es);
  }

  /** Between two releases of the same address it was acquired again. */
  lemma NoDoubleRelease(es: seq<Event>, i: nat, k: nat, a: Addr)
    requires LegalRun(INITIAL, es)
    requires i < k < |Run(INITIAL, es).trace|
    requires Run(INITIAL, es).trace[i] == Release(a) && Run(INITIAL, es).trace[k] == Release(a)
    ensures exists j :: i < j < k && Run(INITIAL, es).trace[j] == Acquire(a)
  {
    ReachableInv(es);
    var trace := Run(INITIAL, es).trace;
    assert Held(trace, k, a);
    var j :| 0 <= j < k && j < |trace| && trace[j] == Acquire(a) && NotReleased(trace, j, k, a);
    assert !(j < i);
    assert i < j;
  }

  /** The blocks a failed native realloc takes out of the dictionary. */
  function LostBy(s: State, e: Event): set<Addr> {
    if e.Realloc? && e.addr in s.memory && e.got.None? then {e.addr} else {}
  }

  ghost function Lost(s: State, es: seq<Event>): set<Addr>
    requires LegalRun(s, es)
    decreases |es|
  {
    if es == [] then {} else LostBy(s, es[0]) + Lost(Step(s, es[0]), es[1..])
  }

  lemma {:induction false} LiveIsFiledOrLost(s: State, es: seq<Event>, lost: set<Addr>)
    requires Inv(s) && LegalRun(s, es) && s.live == s.memory.Keys + lost && s.memory.Keys !! lost
    ensures var t := Run(s, es); t.live == t.memory.Keys + (lost + Lost(s, es)) && t.memory.Keys !! lost + Lost(s, es)
    decreases |es|
  {
    if es != [] {
      var t := Step(s, es[0]);
      var lost' := lost + LostBy(s, es[0]);
      StepInv(s, es[0]);
      StepLost(s, es[0], lost);
      hide Inv, Legal, Step;
      LiveIsFiledOrLost(t, es[1..], lost');
      assert lost' + Lost(t, es[1..]) == lost + Lost(s, es);
    }
  }

  lemma StepLost(s: State, e: Event, lost: set<Addr>)
    requires Inv(s) && Legal(s, e) && s.live == s.memory.Keys + lost && s.memory.Keys !! lost
    ensures var t := Step(s, e); t.live == t.memory.Keys + (lost + LostBy(s, e)) && t.memory.Keys !! lost + LostBy(s, e)
  {
    hide Inv;
    match e {
      case Malloc(_, _, _, got) => if got.Some? { assert got.value !in lost; }
      case Realloc(_, _, _, _, got) => if got.Some? { assert got.value !in lost; }
      case _ =>
    }
  }

  /** A realloc that fails leaves its block live and forgotten. */
  lemma FailedReallocLoses(a: Addr, num: nat, more: nat, file: string, line: int)
    ensures var es := [Malloc(num, file, line, Some(a)), Realloc(a, more, file, line, None)];
      LegalRun(INITIAL, es) && Run(INITIAL, es).memory == map[] && Run(INITIAL, es).live == {a} && Lost(INITIAL, es) == {a}
  {
    var es := [Malloc(num, file, line, Some(a)), Realloc(a, more, file, line, None)];
    assert es[1..] == [es[1]] && [es[1]][1..] == [];
    var filed := Step(INITIAL, es[0]);
    RunOne(filed, es[1]);
    RunFirst(INITIAL, es);
    assert Lost(Step(filed, es[1]), []) == {};
    assert Lost(filed, [es[1]]) == LostBy(filed, es[1]) + {};
    assert Lost(INITIAL, es) == LostBy(INITIAL, es[0]) + Lost(filed, [es[1]]);
  }

  /** In every reachable state the live addresses are the keys of the dictionary and the blocks lost to failed reallocs:
      they are exactly the keys when no native realloc of a filed block has failed. */
  lemma LiveExact(es: seq<Event>)
    requires LegalRun(INITIAL, es)
    ensures var t := Run(INITIAL, es); t.live == t.memory.Keys + Lost(INITIAL, es) && t.memory.Keys !! Lost(INITIAL, es)
    ensures Run(INITIAL, es).live == Run(INITIAL, es).memory.Keys <==> Lost(INITIAL, es) == {}
  {
    InitialInv();
    LiveIsFiledOrLost(INITIAL, es, {});
    assert {} + Lost(INITIAL, es) == Lost(INITIAL, es);
  }

  // ----- Flush -----

  ghost predicate AllSkipped(m: map<Addr, Info>) {
    forall a :: a in m ==> m[a].skip
  }

  /** `Flush` frees and forgets exactly the blocks not skipped whose count is positive, each once; the others stay as they
      were but for the mark, and all of them are marked exactly when no count has wrapped below zero. */
  lemma FlushConserves(s: State, order: seq<Addr>)
    requires Inv(s) && Enumerates(order, s.memory.Keys)
    ensures var t := DoFlush(s, order);
      && (forall a :: a in s.memory ==> (a in t.memory <==> !Doomed(s.memory[a])))
      && (forall a :: a in t.memory ==> a in s.memory && t.memory[a].(skip := s.memory[a].skip) == s.memory[a])
      && (AllSkipped(t.memory) <==> forall a :: a in s.memory && !s.memory[a].skip ==> s.memory[a].count >= 0)
      && t.trace == s.trace + Releases(DoomedIn(s.memory, order)) && NoDuplicates(DoomedIn(s.memory, order))
      && (forall a :: a in DoomedIn(s.memory, order) <==> a in s.memory && Doomed(s.memory[a]))
  {
    DoomedOnce(s.memory, order);
    var t := DoFlush(s, order);
    if AllSkipped(t.memory) {
      forall a | a in s.memory && !s.memory[a].skip ensures s.memory[a].count >= 0 {
        assert a in t.memory ==> t.memory[a].skip;
      }
    }
  }

  ghost predicate NoAllocation(es: seq<Event>) {
    forall i :: 0 <= i < |es| && (es[i].Malloc? || es[i].Realloc?) ==> es[i].got.None?
  }

  /** A `Flush` now would report nothing and change nothing. */
  ghost predicate Silent(s: State, order: seq<Addr>)
    requires forall i :: 0 <= i < |order| ==> order[i] in s.memory
  {
    Report(s.memory, order) == [] && DoFlush(s, order) == s
  }

  /** Whatever is freed, started, stopped or flushed, a `Flush` with no allocation before it is silent. */
  ghost predicate StaysSilent(s: State) {
    forall es, order ::
      NoAllocation(es) && LegalRun(s, es) && Enumerates(order, Run(s, es).memory.Keys) ==> Silent(Run(s, es), order)
  }

  /** No block waits to be reported or freed, nor will one. */
  ghost predicate Quiet(s: State) {
    forall a :: a in s.memory && !s.memory[a].skip ==> s.memory[a].count < 0 && !s.tracking
  }

  /** After a `Flush`, every later `Flush` with no allocation in between reports nothing and changes nothing: always
      with tracking off, and with tracking on exactly when no count had wrapped below zero. */
  lemma SecondFlushSilent(s: State, first: seq<Addr>)
    requires Inv(s) && Enumerates(first, s.memory.Keys)
    ensures StaysSilent(DoFlush(s, first))
       <==> !s.tracking || forall a :: a in s.memory && !s.memory[a].skip ==> s.memory[a].count >= 0
  {
    var t := DoFlush(s, first);
    if !s.tracking || forall a :: a in s.memory && !s.memory[a].skip ==> s.memory[a].count >= 0 {
      assert Quiet(t);
      QuietIsSilent(t);
    } else {
      var a :| a in s.memory && !s.memory[a].skip && s.memory[a].count < 0;
      NegativeWakes(t, a);
    }
  }

  lemma QuietIsSilent(s: State)
    requires Quiet(s)
    ensures StaysSilent(s)
  {
    hide NoAllocation, LegalRun, Run, Quiet, Silent;
    forall es, order | NoAllocation(es) && LegalRun(s, es) && Enumerates(order, Run(s, es).memory.Keys)
      ensures Silent(Run(s, es), order)
    {
      QuietStays(s, es);
      FlushWhenQuiet(Run(s, es), order);
    }
  }

  lemma {:induction false} QuietStays(s: State, es: seq<Event>)
    requires LegalRun(s, es) && NoAllocation(es) && Quiet(s)
    ensures Quiet(Run(s, es))
    decreases |es|
  {
    if es != [] {
      QuietStep(s, es[0]);
      hide Quiet, Step;
      assert forall i :: 0 <= i < |es[1..]| ==> es[1..][i] == es[i + 1];
      QuietStays(Step(s, es[0]), es[1..]);
    }
  }

  lemma QuietStep(s: State, e: Event)
    requires Quiet(s) && Legal(s, e) && (e.Malloc? || e.Realloc? ==> e.got.None?)
    ensures Quiet(Step(s, e))
  {
  }

  lemma {:induction false} NothingToReport(m: map<Addr, Info>, order: seq<Addr>)
    requires forall a :: a in m ==> !Reported(m[a]) && !Doomed(m[a])
    requires forall i :: 0 <= i < |order| ==> order[i] in m
    ensures Report(m, order) == [] && DoomedIn(m, order) == []
  {
    if order != [] { NothingToReport(m, order[..|order| - 1]); }
  }

  lemma FlushWhenQuiet(s: State, order: seq<Addr>)
    requires Quiet(s) && Enumerates(order, s.memory.Keys)
    ensures Silent(s, order)
  {
    NothingToReport(s.memory, order);
    assert forall a :: a in s.memory ==> !Doomed(s.memory[a]) && Marked(s.memory[a]) == s.memory[a];
    assert Kept(s.memory).Keys == s.memory.Keys;
    assert forall a :: a in s.memory ==> Kept(s.memory)[a] == s.memory[a];
    assert s.trace + Releases([]) == s.trace;
    assert s.live - (set a | a in s.memory && Doomed(s.memory[a])) == s.live;
  }

  /** Freed often enough while tracking, a block whose count has wrapped looks leaked. */
  lemma NegativeWakes(s: State, a: Addr)
    requires s.tracking && a in s.memory && !s.memory[a].skip
    requires IsInt32(s.memory[a].count) && s.memory[a].count < 0
    ensures !StaysSilent(s)
  {
    var n := -s.memory[a].count;
    var es := seq(n, _ => Free(a));
    FreesCount(s, a, n);
    var t := Run(s, es);
    var order := Listed(t.memory.Keys);
    ReportHas(t.memory, order, a);
    assert NoAllocation(es) && !Silent(t, order);
  }

  lemma WrapSum(x: int, y: int)
    ensures WrapInt32(WrapInt32(x) + y) == WrapInt32(x + y)
  {
  }

  lemma {:induction false} FreesCount(s: State, a: Addr, n: nat)
    requires s.tracking && a in s.memory && IsInt32(s.memory[a].count)
    ensures var es := seq(n, _ => Free(a));
      && LegalRun(s, es)
      && Run(s, es) == s.(memory := s.memory[a := s.memory[a].(count := WrapInt32(s.memory[a].count + n))])
    decreases n
  {
    var es := seq(n, _ => Free(a));
    if n > 0 {
      FreesCount(Step(s, Free(a)), a, n - 1);
      WrapSum(s.memory[a].count + 1, n - 1);
      assert es[1..] == seq(n - 1, _ => Free(a));
      RunFirst(s, es);
    }
  }

  lemma Listed(keys: set<Addr>) returns (order: seq<Addr>)
    ensures Enumerates(order, keys)
  {
    if keys == {} {
      order := [];
    } else {
      SomeElement(keys);
      var a :| a in keys;
      var rest := Listed(keys - {a});
      order := rest + [a];
      assert a !in rest;
    }
  }

  lemma {:induction false} ReportHas(m: map<Addr, Info>, order: seq<Addr>, a: Addr)
    requires a in order && a in m && Reported(m[a]) && forall i :: 0 <= i < |order| ==> order[i] in m
    ensures Report(m, order) != []
    decreases |order|
  {
    var init, last := order[..|order| - 1], order[|order| - 1];
    assert order == init + [last];
    if a != last { ReportHas(m, init, a); }
  }
}
