/** Which blocks the native heap has back at the end of `Finish`, against the history of the calls before it. */
module TrackerReleases {
  import opened FixedWidth
  import opened TypedValues
  import opened TrackerMachine
  import opened TrackerHistory
  import opened TrackerReports

  /** The block that event `i` created is still live: its address is, and was not handed out again. */
  ghost predicate Lives(h: seq<Event>, i: nat, live: set<Addr>)
    requires i < |h| && Creates(h, i)
  {
    Latest(h, i, |h|) && AddrOf(h, i) in live
  }

  // ----- Blocks created since `Start` -----

  /** Blocks freed at event `n` or later are gone. */
  ghost predicate Gone(h: seq<Event>, n: nat, live: set<Addr>) {
    forall i :: 0 <= i < |h| && Creates(h, i) ==> GoneIfTaken(h, n, i, live)
  }

  ghost predicate GoneIfTaken(h: seq<Event>, n: nat, i: nat, live: set<Addr>)
    requires i < |h| && Creates(h, i)
  {
    Current(h, i) && Taken(h, n, i) ==> !Lives(h, i, live)
  }

  /** What one call does to the live addresses. */
  lemma LiveNext(s: State, e: Event)
    requires Inv(s) && Legal(s, e) && IsCall(e)
    ensures forall a :: a in Step(s, e).live ==> a in s.live || (!e.Free? && e.got == Some(a))
    ensures e.Free? && !s.tracking && e.addr in s.memory ==> e.addr !in Step(s, e).live
  {
    hide Held, Disciplined, WrapInt32;
  }

  lemma GoneNext(h: seq<Event>, n: nat, s: State, owner: map<Addr, nat>, e: Event)
    requires Owned(h, n, s.memory, owner) && Gone(h, n, s.live) && Inv(s) && Legal(s, e) && IsCall(e)
    requires s.tracking <==> |h| < n
    ensures Gone(h + [e], n, Step(s, e).live)
  {
    LiveNext(s, e);
    hide Step, Inv, Legal, Current, Taken, Latest, Creates;
    var longer := h + [e];
    forall i | 0 <= i < |longer| && Creates(longer, i)
      ensures GoneIfTaken(longer, n, i, Step(s, e).live)
    {
      if i < |h| {
        CreatesPrefix(h, e, i);
        assert GoneIfTaken(h, n, i, s.live) && OwnsExactly(h, n, owner, i);
        OneTakenNext(h, n, s, e, i);
      } else {
        NewNotTaken(h, n, e);
      }
    }
  }

  lemma CreatesPrefix(h: seq<Event>, e: Event, i: nat)
    requires i < |h| && Creates(h + [e], i)
    ensures Creates(h, i) && AddrOf(h, i) == AddrOf(h + [e], i)
  {
    assert (h + [e])[i] == h[i];
  }

  lemma NewNotTaken(h: seq<Event>, n: nat, e: Event)
    requires Creates(h + [e], |h|)
    ensures !Taken(h + [e], n, |h|)
  {
    BlockNew(h, n, e);
  }

  /** One more call, for one block, new or old. */
  lemma OneTakenNext(h: seq<Event>, n: nat, s: State, e: Event, i: nat)
    requires i < |h| && Creates(h, i) && GoneIfTaken(h, n, i, s.live)
    requires Current(h, i) && !Taken(h, n, i) ==> AddrOf(h, i) in s.memory
    requires Legal(s, e) && IsCall(e) && (s.tracking <==> |h| < n)
    requires forall a :: a in Step(s, e).live ==> a in s.live || (!e.Free? && e.got == Some(a))
    requires e.Free? && !s.tracking && e.addr in s.memory ==> e.addr !in Step(s, e).live
    ensures Creates(h + [e], i) && GoneIfTaken(h + [e], n, i, Step(s, e).live)
  {
    CurrentNext(h, e, i);
    TakenNext(h, n, e, i);
    LatestNext(h, e, i);
    assert (h + [e])[|h|] == e;
    hide Step, Current, Taken, Latest;
  }

  lemma {:induction false} GoneHistory(s: State, g: seq<Event>, n: nat, owner: map<Addr, nat>, h: seq<Event>)
    requires Owned(g, n, s.memory, owner) && Inv(s) && CallsOnly(h) && LegalRun(s, h) && Gone(g, n, s.live)
    requires if s.tracking then |g + h| <= n else n <= |g|
    ensures Gone(g + h, n, Run(s, h).live)
    decreases |h|
  {
    hide Owned, Inv, Step, Legal, CallsOnly, IsCall, Gone;
    if h == [] {
      assert g + h == g;
    } else {
      CallsSplit(h);
      var init, e := h[..|h| - 1], h[|h| - 1];
      RunSplit(s, init, [e]);
      var t := Run(s, init);
      RunOne(t, e);
      var before := History(s, g, n, owner, init);
      GoneHistory(s, g, n, owner, init);
      GoneNext(g + init, n, t, before, e);
      assert g + init + [e] == g + h;
    }
  }

  lemma GoneNone(n: nat, live: set<Addr>)
    ensures Gone([], n, live)
  {
  }

  /** The state before `Flush`, with the creators of its blocks and the blocks that are gone. */
  lemma BeforeFlush(s: State, h: seq<Event>, rest: seq<Event>, order: seq<Addr>) returns (owner: map<Addr, nat>)
    requires Inv(s) && CallsOnly(h) && CallsOnly(rest) && LegalRun(s, Session(h, rest) + [Flush(order)])
    ensures LegalRun(s, Session(h, rest))
    ensures var t := Run(s, Session(h, rest));
      && Owned(h + rest, |h|, t.memory, owner) && Gone(h + rest, |h|, t.live) && Inv(t)
      && Enumerates(order, t.memory.Keys) && Run(s, Session(h, rest) + [Flush(order)]) == DoFlush(t, order)
  {
    AfterCalls(s, h, rest, order);
    RunSplit(s, Session(h, rest), [Flush(order)]);
    RunOne(Run(s, Session(h, rest)), Flush(order));
    hide Owned, Inv, Run, LegalRun, DoStart, CallsOnly, NoDuplicates, Session, Gone, DoFlush;
    StartInv(s);
    OwnedNone(s, |h|);
    GoneNone(|h|, DoStart(s).live);
    assert [] + h == h;
    var stopped := Stopped(Run(DoStart(s), h));
    owner := History(DoStart(s), [], |h|, map[], h);
    GoneHistory(DoStart(s), [], |h|, map[], h);
    StopInv(Run(DoStart(s), h));
    GoneHistory(stopped, h, |h|, owner, rest);
    owner := History(stopped, h, |h|, owner, rest);
  }

  /** Of the blocks created since `Start` and not reallocated since, exactly those are live at the end of `Finish` that were
      not freed after tracking ended and whose 32-bit count is not positive. While no count leaves 32 bits, these are
      the blocks never freed. */
  lemma ReleasedExact(s: State, h: seq<Event>, rest: seq<Event>, order: seq<Addr>, i: nat)
    requires Inv(s) && CallsOnly(h) && CallsOnly(rest) && LegalRun(s, Session(h, rest) + [Flush(order)])
    requires i < |h + rest| && Current(h + rest, i)
    ensures Lives(h + rest, i, Run(s, Session(h, rest) + [Flush(order)]).live)
       <==> !Taken(h + rest, |h|, i) && WrapInt32(FreeCount(h + rest, i)) <= 0
  {
    var owner := BeforeFlush(s, h, rest, order);
    LivesAfterFlush(h + rest, |h|, Run(s, Session(h, rest)), owner, order, i);
  }

  lemma LivesAfterFlush(h: seq<Event>, n: nat, t: State, owner: map<Addr, nat>, order: seq<Addr>, i: nat)
    requires Owned(h, n, t.memory, owner) && Gone(h, n, t.live) && Inv(t) && Enumerates(order, t.memory.Keys)
    requires i < |h| && Current(h, i)
    ensures Lives(h, i, DoFlush(t, order).live) <==> !Taken(h, n, i) && WrapInt32(FreeCount(h, i)) <= 0
  {
    hide WrapInt32, FreeCount, Taken, Latest, Held, Disciplined, NoDuplicates, Kept, DoomedIn;
    assert GoneIfTaken(h, n, i, t.live) && OwnsExactly(h, n, owner, i);
    var a := AddrOf(h, i);
    if !Taken(h, n, i) {
      assert OwnedBy(h, t.memory, a, i) && !t.memory[a].skip;
    }
  }

  // ----- Blocks from before `Start` -----

  /** The allocation that would have made the block filed under `a`. */
  function Made(info: Info, a: Addr): Event {
    Malloc(info.bytes, info.file, info.line, Some(a))
  }

  /** The block that the first event made stays filed, to be skipped, unless it is reallocated or freed at `n` or later. */
  ghost predicate OldKept(g: seq<Event>, n: nat, s: State)
    requires g != [] && Creates(g, 0)
  {
    var a := AddrOf(g, 0);
    && (Current(g, 0) && !Taken(g, n, 0) ==> a in s.memory && s.memory[a].skip && Latest(g, 0, |g|))
    && GoneIfTaken(g, n, 0, s.live)
  }

  lemma OldKeptNext(g: seq<Event>, n: nat, s: State, e: Event)
    requires g != [] && Creates(g, 0) && OldKept(g, n, s) && Inv(s) && Legal(s, e) && IsCall(e)
    requires s.tracking <==> |g| < n
    ensures Creates(g + [e], 0) && OldKept(g + [e], n, Step(s, e))
  {
    LiveNext(s, e);
    OneTakenNext(g, n, s, e, 0);
    CurrentNext(g, e, 0);
    TakenNext(g, n, e, 0);
    LatestNext(g, e, 0);
    assert (g + [e])[|g|] == e;
    hide Current, Taken, Latest, Held, Disciplined, WrapInt32, GoneIfTaken;
  }

  lemma {:induction false} OldHistory(s: State, g: seq<Event>, n: nat, h: seq<Event>)
    requires g != [] && Creates(g, 0) && OldKept(g, n, s) && Inv(s) && CallsOnly(h) && LegalRun(s, h)
    requires if s.tracking then |g + h| <= n else n <= |g|
    ensures Creates(g + h, 0) && OldKept(g + h, n, Run(s, h))
    ensures Inv(Run(s, h)) && Run(s, h).tracking == s.tracking
    decreases |h|
  {
    hide Inv, Step, Legal, CallsOnly, IsCall, OldKept;
    if h == [] {
      assert g + h == g;
    } else {
      CallsSplit(h);
      var init, e := h[..|h| - 1], h[|h| - 1];
      RunSplit(s, init, [e]);
      var t := Run(s, init);
      RunOne(t, e);
      OldHistory(s, g, n, init);
      OldKeptNext(g + init, n, t, e);
      StepInv(t, e);
      KeepsTracking(t, e);
      assert g + init + [e] == g + h;
    }
  }

  lemma OldStart(s: State, n: nat, a: Addr)
    requires a in s.memory && n >= 1
    ensures Creates([Made(s.memory[a], a)], 0) && OldKept([Made(s.memory[a], a)], n, DoStart(s))
  {
  }

  /** A block from before `Start` that is not reallocated is live at the end of `Finish` exactly when it was not freed after
      tracking ended: a free while tracking never gives it back. */
  lemma OldReleasedExact(s: State, h: seq<Event>, rest: seq<Event>, order: seq<Addr>, a: Addr)
    requires Inv(s) && CallsOnly(h) && CallsOnly(rest) && LegalRun(s, Session(h, rest) + [Flush(order)])
    requires a in s.memory && Current([Made(s.memory[a], a)] + h + rest, 0)
    ensures var g := [Made(s.memory[a], a)] + h + rest;
      Lives(g, 0, Run(s, Session(h, rest) + [Flush(order)]).live) <==> !Taken(g, |h| + 1, 0)
  {
    var owner := BeforeFlush(s, h, rest, order);
    AfterCalls(s, h, rest, order);
    var made, n := [Made(s.memory[a], a)], |h| + 1;
    OldStart(s, n, a);
    StartInv(s);
    hide Run, LegalRun, Session, OldKept, Owned, Gone, Current, Taken, Inv, DoFlush, DoStart, CallsOnly;
    var started := DoStart(s);
    OldHistory(started, made, n, h);
    var tracked := Run(started, h);
    StopInv(tracked);
    OldStop(made + h, n, tracked);
    OldHistory(Stopped(tracked), made + h, n, rest);
    OldFlush(made + h + rest, n, Run(Stopped(tracked), rest), order);
  }

  lemma OldStop(g: seq<Event>, n: nat, s: State)
    requires g != [] && Creates(g, 0) && OldKept(g, n, s)
    ensures OldKept(g, n, Stopped(s))
  {
  }

  lemma OldFlush(g: seq<Event>, n: nat, t: State, order: seq<Addr>)
    requires g != [] && Creates(g, 0) && OldKept(g, n, t) && Current(g, 0) && Inv(t) && Enumerates(order, t.memory.Keys)
    ensures Lives(g, 0, DoFlush(t, order).live) <==> !Taken(g, n, 0)
  {
    hide Current, Taken, Latest, Held, Disciplined, NoDuplicates, Kept, DoomedIn;
  }

  /** A block made before `Start` and freed while tracking is live, and filed, after `Finish`. */
  lemma FreedOldBlockStays(a: Addr, num: nat, file: string, line: int)
    ensures var es := [Malloc(num, file, line, Some(a)), Start, Free(a), StopTracking, Flush([a])];
      && LegalRun(INITIAL, es) && a in Run(INITIAL, es).live
      && Run(INITIAL, es).memory == map[a := Info(file, line, num, a, true, 1)]
  {
    var made := Malloc(num, file, line, Some(a));
    var s1 := Step(INITIAL, made);
    var s2 := Step(s1, Start);
    var s3 := Step(s2, Free(a));
    var s4 := Step(s3, StopTracking);
    assert s3.memory == map[a := Info(file, line, num, a, true, 1)];
    var last, stop, free, start := [Flush([a])], [StopTracking, Flush([a])], [Free(a), StopTracking, Flush([a])],
      [Start, Free(a), StopTracking, Flush([a])];
    assert stop[1..] == last && free[1..] == stop && start[1..] == free;
    RunOne(s4, Flush([a]));
    RunFirst(s3, stop);
    RunFirst(s2, free);
    RunFirst(s1, start);
    var es := [made, Start, Free(a), StopTracking, Flush([a])];
    assert es[1..] == start;
    RunFirst(INITIAL, es);
    assert Kept(s4.memory) == s4.memory;
  }
}
