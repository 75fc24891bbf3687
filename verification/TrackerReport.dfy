/** The report of `Finish` against the history of the calls before it.

    A block is told by the event that created it. It ends when it is reallocated, or when its address is handed out again. */
module TrackerReports {
  import opened FixedWidth
  import opened TypedValues
  import opened TrackerMachine
  import opened TrackerHistory

  // ----- What the history says -----

  predicate IsCall(e: Event) {
    e.Malloc? || e.Free? || e.Realloc?
  }

  ghost predicate CallsOnly(h: seq<Event>) {
    forall i :: 0 <= i < |h| ==> IsCall(h[i])
  }

  /** Event `i` created a block. */
  predicate Creates(h: seq<Event>, i: nat)
    requires i < |h|
  {
    (h[i].Malloc? || h[i].Realloc?) && h[i].got.Some?
  }

  function AddrOf(h: seq<Event>, i: nat): Addr
    requires i < |h| && Creates(h, i)
  {
    h[i].got.value
  }

  /** Before event `k`, the address of the block that event `i` created was not handed out again. */
  ghost predicate Latest(h: seq<Event>, i: nat, k: nat)
    requires i < |h| && Creates(h, i) && k <= |h|
  {
    forall j :: i < j < k && Creates(h, j) ==> AddrOf(h, j) != AddrOf(h, i)
  }

  /** Event `k` reallocates the block that event `i` created. */
  ghost predicate Moves(h: seq<Event>, i: nat, k: nat)
    requires i < |h| && Creates(h, i) && k < |h|
  {
    h[k].Realloc? && h[k].addr == AddrOf(h, i) && Latest(h, i, k)
  }

  /** Event `k` frees the block that event `i` created. */
  ghost predicate Frees(h: seq<Event>, i: nat, k: nat)
    requires i < |h| && Creates(h, i) && k < |h|
  {
    h[k] == Free(AddrOf(h, i)) && Latest(h, i, k)
  }

  /** The block that event `i` created was not reallocated later. */
  ghost predicate Current(h: seq<Event>, i: nat)
    requires i < |h|
  {
    Creates(h, i) && forall k :: i < k < |h| ==> !Moves(h, i, k)
  }

  /** How often the block that event `i` created was freed. */
  ghost function FreeCount(h: seq<Event>, i: nat): nat
    requires i < |h| && Creates(h, i)
  {
    var n := |h| - 1;
    if n <= i then 0 else FreeCount(h[..n], i) + if Frees(h, i, n) then 1 else 0
  }

  /** The block that event `i` created was freed at event `n` or later, when frees release memory at once. */
  ghost predicate Taken(h: seq<Event>, n: nat, i: nat)
    requires i < |h| && Creates(h, i)
  {
    exists k :: n <= k < |h| && i < k && Frees(h, i, k)
  }

  /** The block that event `i` created should be reported. */
  ghost predicate Faulty(h: seq<Event>, i: nat)
    requires i < |h|
  {
    Current(h, i) && FreeCount(h, i) != 1
  }

  /** What should be reported about it. */
  ghost function Deserved(h: seq<Event>, i: nat): Problem
    requires i < |h| && Creates(h, i)
  {
    Problem(if FreeCount(h, i) == 0 then Leaked else MultipleFree, h[i].num, FreeCount(h, i), h[i].file, h[i].line)
  }

  /** Problem `k` of the report is what event `who[k]` deserves, and `who` are the faulty blocks, each once. */
  ghost predicate ExactReport(h: seq<Event>, report: seq<Problem>, who: seq<nat>) {
    && NoDuplicates(who)
    && (forall i :: i in who <==> 0 <= i < |h| && Faulty(h, i))
    && |who| == |report|
    && forall k :: 0 <= k < |who| ==> who[k] < |h| && Creates(h, who[k]) && report[k] == Deserved(h, who[k])
  }

  ghost predicate IsExact(h: seq<Event>, report: seq<Problem>) {
    exists who :: ExactReport(h, report, who)
  }

  /** No block was freed too often for a 32-bit count. */
  ghost predicate CountsFit(h: seq<Event>) {
    forall i :: 0 <= i < |h| && Current(h, i) ==> FreeCount(h, i) <= INT32_MAX
  }

  /** No faulty block was freed at event `n` or later. */
  ghost predicate NoneTaken(h: seq<Event>, n: nat) {
    forall i :: 0 <= i < |h| && Faulty(h, i) ==> !Taken(h, n, i)
  }

  // ----- One more event -----

  lemma LatestLonger(h: seq<Event>, e: Event, i: nat, k: nat)
    requires i < |h| && Creates(h, i) && k <= |h|
    ensures Creates(h + [e], i) && AddrOf(h + [e], i) == AddrOf(h, i)
    ensures Latest(h + [e], i, k) <==> Latest(h, i, k)
  {
    var longer := h + [e];
    assert longer[i] == h[i];
    forall j | i < j < k ensures Creates(longer, j) <==> Creates(h, j) {
      assert longer[j] == h[j];
    }
  }

  lemma CurrentNext(h: seq<Event>, e: Event, i: nat)
    requires i < |h| && Creates(h, i)
    ensures Creates(h + [e], i) && AddrOf(h + [e], i) == AddrOf(h, i)
    ensures Current(h + [e], i) <==> Current(h, i) && !(e.Realloc? && e.addr == AddrOf(h, i) && Latest(h, i, |h|))
  {
    hide Latest;
    var longer := h + [e];
    assert longer[|h|] == e;
    LatestLonger(h, e, i, |h|);
    assert Moves(longer, i, |h|) <==> e.Realloc? && e.addr == AddrOf(h, i) && Latest(h, i, |h|);
    forall k | i < k < |h| ensures Moves(longer, i, k) <==> Moves(h, i, k) {
      LatestLonger(h, e, i, k);
      assert longer[k] == h[k];
    }
  }

  lemma TakenNext(h: seq<Event>, n: nat, e: Event, i: nat)
    requires i < |h| && Creates(h, i)
    ensures Creates(h + [e], i)
    ensures Taken(h + [e], n, i) <==> Taken(h, n, i) || (n <= |h| && e == Free(AddrOf(h, i)) && Latest(h, i, |h|))
  {
    hide Latest;
    var longer := h + [e];
    assert longer[|h|] == e;
    LatestLonger(h, e, i, |h|);
    assert Frees(longer, i, |h|) <==> e == Free(AddrOf(h, i)) && Latest(h, i, |h|);
    forall k | i < k < |h| ensures Frees(longer, i, k) <==> Frees(h, i, k) {
      LatestLonger(h, e, i, k);
      assert longer[k] == h[k];
    }
  }

  lemma FreeCountNext(h: seq<Event>, e: Event, i: nat)
    requires i < |h| && Creates(h, i)
    ensures Creates(h + [e], i) && AddrOf(h + [e], i) == AddrOf(h, i)
    ensures FreeCount(h + [e], i) == FreeCount(h, i) + if e == Free(AddrOf(h, i)) && Latest(h, i, |h|) then 1 else 0
  {
    var longer := h + [e];
    assert longer[..|h|] == h && longer[|h|] == e;
    LatestLonger(h, e, i, |h|);
    hide Latest;
  }

  lemma LatestNext(h: seq<Event>, e: Event, i: nat)
    requires i < |h| && Creates(h, i)
    ensures Creates(h + [e], i)
    ensures Latest(h + [e], i, |h| + 1)
       <==> Latest(h, i, |h|) && !(Creates(h + [e], |h|) && AddrOf(h + [e], |h|) == AddrOf(h, i))
  {
    LatestLonger(h, e, i, |h|);
    assert Latest(h + [e], i, |h| + 1) ==> Latest(h + [e], i, |h|);
  }

  lemma BlockNew(h: seq<Event>, n: nat, e: Event)
    requires (e.Malloc? || e.Realloc?) && e.got.Some?
    ensures var longer := h + [e];
      && Creates(longer, |h|) && AddrOf(longer, |h|) == e.got.value && Current(longer, |h|) && !Taken(longer, n, |h|)
      && FreeCount(longer, |h|) == 0 && Latest(longer, |h|, |h| + 1) && longer[|h|] == e
  {
  }

  // ----- Who created what -----

  function EntryOf(e: Event, count: int): Info
    requires (e.Malloc? || e.Realloc?) && e.got.Some?
  {
    Info(e.file, e.line, e.num, e.got.value, false, count)
  }

  /** `owner` says which event created each block that is not skipped, tracking having stopped before event `n`. */
  ghost predicate Owned(h: seq<Event>, n: nat, m: map<Addr, Info>, owner: map<Addr, nat>) {
    && (forall a :: a in owner <==> a in m && !m[a].skip)
    && (forall a :: a in owner ==> OwnedBy(h, m, a, owner[a]))
    && (forall i :: 0 <= i < |h| && Creates(h, i) ==> OwnsExactly(h, n, owner, i))
  }

  ghost predicate OwnedBy(h: seq<Event>, m: map<Addr, Info>, a: Addr, i: nat) {
    && i < |h| && Creates(h, i) && AddrOf(h, i) == a && Latest(h, i, |h|)
    && a in m && m[a] == EntryOf(h[i], WrapInt32(FreeCount(h, i)))
  }

  ghost predicate OwnsExactly(h: seq<Event>, n: nat, owner: map<Addr, nat>, i: nat)
    requires i < |h| && Creates(h, i)
  {
    Current(h, i) && !Taken(h, n, i) <==> AddrOf(h, i) in owner && owner[AddrOf(h, i)] == i
  }

  function OwnerNext(s: State, owner: map<Addr, nat>, e: Event, n: nat): map<Addr, nat> {
    var kept := if e.Realloc? || (e.Free? && !s.tracking) then owner - {e.addr} else owner;
    if (e.Malloc? || e.Realloc?) && e.got.Some? then kept[e.got.value := n] else kept
  }

  /** One more call keeps track of who created what. */
  lemma OwnedNext(h: seq<Event>, n: nat, s: State, owner: map<Addr, nat>, e: Event)
    requires Owned(h, n, s.memory, owner) && Inv(s) && Legal(s, e) && IsCall(e) && (s.tracking <==> |h| < n)
    ensures Owned(h + [e], n, Step(s, e).memory, OwnerNext(s, owner, e, |h|))
  {
    OwnerKeysNext(h, n, s, owner, e);
    hide Inv, Step, Creates, OwnedBy, OwnsExactly, OwnerNext;
    var m', owner', longer := Step(s, e).memory, OwnerNext(s, owner, e, |h|), h + [e];
    forall a | a in owner' ensures OwnedBy(longer, m', a, owner'[a]) {
      OwnedByNext(h, n, s, owner, e, a);
    }
    forall i | 0 <= i < |longer| && Creates(longer, i) ensures OwnsExactly(longer, n, owner', i) {
      OwnsExactlyNext(h, n, s, owner, e, i);
    }
  }

  lemma OwnerKeysNext(h: seq<Event>, n: nat, s: State, owner: map<Addr, nat>, e: Event)
    requires Owned(h, n, s.memory, owner) && IsCall(e)
    ensures var m', owner' := Step(s, e).memory, OwnerNext(s, owner, e, |h|);
      forall a :: a in owner' <==> a in m' && !m'[a].skip
  {
    hide WrapInt32, OwnedBy, OwnsExactly;
  }

  lemma WrapCount(f: nat)
    ensures WrapInt32(WrapInt32(f) + 1) == WrapInt32(f + 1) && WrapInt32(0) == 0
  {
  }

  lemma OwnedByNext(h: seq<Event>, n: nat, s: State, owner: map<Addr, nat>, e: Event, a: Addr)
    requires Owned(h, n, s.memory, owner) && IsCall(e)
    requires a in OwnerNext(s, owner, e, |h|)
    ensures OwnedBy(h + [e], Step(s, e).memory, a, OwnerNext(s, owner, e, |h|)[a])
  {
    hide WrapInt32, Current, Latest, FreeCount, OwnsExactly;
    var i := OwnerNext(s, owner, e, |h|)[a];
    if !e.Free? && e.got.Some? && e.got.value == a {
      BlockNew(h, n, e);
      WrapCount(0);
    } else {
      assert OwnedBy(h, s.memory, a, i);
      FreeCountNext(h, e, i);
      LatestNext(h, e, i);
      WrapCount(FreeCount(h, i));
      assert (h + [e])[i] == h[i] && (h + [e])[|h|] == e;
    }
  }

  lemma OwnsExactlyNext(h: seq<Event>, n: nat, s: State, owner: map<Addr, nat>, e: Event, i: nat)
    requires Owned(h, n, s.memory, owner) && Inv(s) && Legal(s, e) && IsCall(e) && (s.tracking <==> |h| < n)
    requires i <= |h| && Creates(h + [e], i)
    ensures OwnsExactly(h + [e], n, OwnerNext(s, owner, e, |h|), i)
  {
    hide WrapInt32, Current, Latest, FreeCount, Taken, Disciplined, Held;
    if i < |h| {
      assert (h + [e])[i] == h[i];
      CurrentNext(h, e, i);
      TakenNext(h, n, e, i);
      assert OwnsExactly(h, n, owner, i);
      assert AddrOf(h, i) in owner ==> OwnedBy(h, s.memory, AddrOf(h, i), owner[AddrOf(h, i)]);
    } else {
      BlockNew(h, n, e);
    }
  }

  lemma OwnedNone(s: State, n: nat)
    ensures Owned([], n, DoStart(s).memory, map[])
  {
  }

  lemma CallsSplit(h: seq<Event>)
    requires CallsOnly(h) && h != []
    ensures CallsOnly(h[..|h| - 1]) && IsCall(h[|h| - 1]) && h == h[..|h| - 1] + [h[|h| - 1]]
  {
  }

  lemma KeepsTracking(s: State, e: Event)
    requires IsCall(e)
    ensures Step(s, e).tracking == s.tracking
  {
  }

  /** Calls from a state whose blocks have owners, all with tracking on or all with tracking off. */
  lemma {:induction false} History(s: State, g: seq<Event>, n: nat, owner: map<Addr, nat>, h: seq<Event>)
    returns (owner': map<Addr, nat>)
    requires Owned(g, n, s.memory, owner) && Inv(s) && CallsOnly(h) && LegalRun(s, h)
    requires if s.tracking then |g + h| <= n else n <= |g|
    ensures Owned(g + h, n, Run(s, h).memory, owner')
    ensures Inv(Run(s, h)) && Run(s, h).tracking == s.tracking
    decreases |h|
  {
    hide Owned, Inv, Step, Legal, CallsOnly, OwnerNext, IsCall;
    if h == [] {
      assert g + h == g;
      owner' := owner;
    } else {
      CallsSplit(h);
      var init, e := h[..|h| - 1], h[|h| - 1];
      RunSplit(s, init, [e]);
      var t := Run(s, init);
      RunOne(t, e);
      var before := History(s, g, n, owner, init);
      OwnedNext(g + init, n, t, before, e);
      StepInv(t, e);
      KeepsTracking(t, e);
      assert g + init + [e] == g + h;
      owner' := OwnerNext(t, before, e, |g + init|);
    }
  }

  // ----- The report by creators -----

  /** Reported blocks, in the order of enumeration, by the event that created them. */
  function Creators(m: map<Addr, Info>, owner: map<Addr, nat>, order: seq<Addr>): seq<nat>
    requires forall i :: 0 <= i < |order| ==> order[i] in m
    requires forall a :: a in owner <==> a in m && !m[a].skip
  {
    if order == [] then []
    else
      var last := order[|order| - 1];
      Creators(m, owner, order[..|order| - 1]) + if Reported(m[last]) then [owner[last]] else []
  }

  /** The faulty blocks that nobody took away. */
  ghost predicate Left(h: seq<Event>, n: nat, i: nat) {
    i < |h| && Faulty(h, i) && !Taken(h, n, i)
  }

  lemma {:induction false} ReportByCreators(h: seq<Event>, n: nat, m: map<Addr, Info>, owner: map<Addr, nat>, order: seq<Addr>)
    requires Owned(h, n, m, owner) && NoDuplicates(order) && forall i :: 0 <= i < |order| ==> order[i] in m
    requires CountsFit(h)
    ensures var who := Creators(m, owner, order);
      && |who| == |Report(m, order)| && NoDuplicates(who)
      && (forall k :: 0 <= k < |who| ==>
          Left(h, n, who[k]) && AddrOf(h, who[k]) in order && Report(m, order)[k] == Deserved(h, who[k]))
      && (forall i :: Left(h, n, i) && AddrOf(h, i) in order ==> i in who)
    decreases |order|
  {
    if order != [] {
      var init, last := order[..|order| - 1], order[|order| - 1];
      assert order == init + [last];
      ReportByCreators(h, n, m, owner, init);
      ReportedIsLeft(h, n, m, owner, last);
      hide Owned, CountsFit, Left, FreeCount, Reported, ProblemOf;
      assert forall x :: x in order <==> x in init || x == last;
      assert last !in init;
      forall i | Left(h, n, i) && AddrOf(h, i) in order ensures i in Creators(m, owner, order) {
        LeftIsOwned(h, n, m, owner, i);
        if AddrOf(h, i) in init { assert i in Creators(m, owner, init); }
      }
    }
  }

  lemma ReportedIsLeft(h: seq<Event>, n: nat, m: map<Addr, Info>, owner: map<Addr, nat>, a: Addr)
    requires Owned(h, n, m, owner) && a in m && CountsFit(h)
    ensures a in owner <==> !m[a].skip
    ensures a in owner ==> owner[a] < |h| && Creates(h, owner[a]) && AddrOf(h, owner[a]) == a
    ensures Reported(m[a]) ==> a in owner
    ensures a in owner ==> (Reported(m[a]) <==> Left(h, n, owner[a]))
    ensures Reported(m[a]) ==> ProblemOf(m[a]) == Deserved(h, owner[a])
  {
    hide FreeCount, Latest, Taken;
    if a in owner {
      var i := owner[a];
      assert OwnedBy(h, m, a, i) && OwnsExactly(h, n, owner, i);
      assert WrapInt32(FreeCount(h, i)) == FreeCount(h, i);
    }
  }

  lemma LeftIsOwned(h: seq<Event>, n: nat, m: map<Addr, Info>, owner: map<Addr, nat>, i: nat)
    requires Owned(h, n, m, owner) && Left(h, n, i)
    ensures Creates(h, i) && AddrOf(h, i) in m && AddrOf(h, i) in owner && owner[AddrOf(h, i)] == i
  {
    assert OwnsExactly(h, n, owner, i);
  }

  // ----- When the report is exact -----

  /** Reported counts are 32-bit. */
  lemma {:induction false} ReportCounts(s: State, order: seq<Addr>)
    requires Inv(s) && forall i :: 0 <= i < |order| ==> order[i] in s.memory
    ensures forall k :: 0 <= k < |Report(s.memory, order)| ==> IsInt32(Report(s.memory, order)[k].freeCount)
    decreases |order|
  {
    hide Held, Disciplined;
    if order != [] { ReportCounts(s, order[..|order| - 1]); }
  }

  lemma ExactCounts(h: seq<Event>, report: seq<Problem>, who: seq<nat>)
    requires ExactReport(h, report, who) && forall k :: 0 <= k < |report| ==> IsInt32(report[k].freeCount)
    ensures CountsFit(h)
  {
    hide FreeCount, Moves;
    forall i | 0 <= i < |h| && Current(h, i) ensures FreeCount(h, i) <= INT32_MAX {
      if FreeCount(h, i) != 1 {
        assert i in who;
        var k :| 0 <= k < |who| && who[k] == i;
        assert report[k] == Deserved(h, i);
      }
    }
  }

  lemma {:induction false} Members<T>(s: seq<T>)
    requires NoDuplicates(s)
    ensures |set x | x in s| == |s|
  {
    if s != [] {
      var init, last := s[..|s| - 1], s[|s| - 1];
      assert s == init + [last];
      Members(init);
      assert (set x | x in s) == (set x | x in init) + {last};
    }
  }

  /** Of two lists of the same length without duplicates, neither holds more than the other. */
  lemma SameMembers<T>(a: seq<T>, b: seq<T>)
    requires NoDuplicates(a) && NoDuplicates(b) && |a| == |b| && forall x :: x in a ==> x in b
    ensures forall x :: x in b ==> x in a
  {
    Members(a);
    Members(b);
    var few, all := (set x | x in a), (set x | x in b);
    assert few <= all && |all - few| == 0;
    forall x | x in b ensures x in a {
      assert x !in a ==> x in all - few;
    }
  }

  lemma CreatorsExact(h: seq<Event>, n: nat, m: map<Addr, Info>, owner: map<Addr, nat>, order: seq<Addr>)
    requires Owned(h, n, m, owner) && Enumerates(order, m.Keys) && CountsFit(h)
    ensures IsExact(h, Report(m, order)) <==> NoneTaken(h, n)
  {
    assert forall a :: a in owner <==> a in m && !m[a].skip;
    ReportByCreators(h, n, m, owner, order);
    hide Owned, FreeCount, Current, Taken;
    var creators := Creators(m, owner, order);
    forall i | Left(h, n, i) ensures i in creators {
      LeftIsOwned(h, n, m, owner, i);
    }
    assert forall i :: i in creators ==> Left(h, n, i);
    if NoneTaken(h, n) {
      assert ExactReport(h, Report(m, order), creators);
    }
    if IsExact(h, Report(m, order)) {
      var who :| ExactReport(h, Report(m, order), who);
      SameMembers(creators, who);
    }
  }

  lemma ReportOfState(h: seq<Event>, n: nat, t: State, owner: map<Addr, nat>, order: seq<Addr>)
    requires Owned(h, n, t.memory, owner) && Inv(t) && Enumerates(order, t.memory.Keys)
    ensures IsExact(h, Report(t.memory, order)) <==> CountsFit(h) && NoneTaken(h, n)
  {
    hide Owned, Inv, CountsFit, NoneTaken, ExactReport, Report, NoDuplicates;
    ReportCounts(t, order);
    if IsExact(h, Report(t.memory, order)) {
      var who :| ExactReport(h, Report(t.memory, order), who);
      ExactCounts(h, Report(t.memory, order), who);
    }
    if CountsFit(h) {
      CreatorsExact(h, n, t.memory, owner, order);
    }
  }

  /** Everything before `Flush`: `Start`, calls, the end of tracking, and more calls. */
  function Session(h: seq<Event>, rest: seq<Event>): seq<Event> {
    [Start] + h + [StopTracking] + rest
  }

  function Stopped(s: State): State {
    s.(tracking := false)
  }

  /** From any reachable state, after `Start`, any calls `h`, the end of tracking and any calls `rest`, `Flush` reports
      exactly the blocks created since `Start`, not reallocated since and not freed exactly once: leaked if never freed,
      freed `n` times otherwise. It does so exactly when no block was freed too often for a 32-bit count and none of those
      blocks was freed after tracking ended. */
  lemma ReportExactInside(s: State, h: seq<Event>, rest: seq<Event>, order: seq<Addr>)
    requires Inv(s) && CallsOnly(h) && CallsOnly(rest) && LegalRun(s, Session(h, rest) + [Flush(order)])
    ensures LegalRun(s, Session(h, rest))
    ensures forall i :: 0 <= i < |order| ==> order[i] in Run(s, Session(h, rest)).memory
    ensures IsExact(h + rest, Report(Run(s, Session(h, rest)).memory, order))
       <==> CountsFit(h + rest) && NoneTaken(h + rest, |h|)
  {
    AfterCalls(s, h, rest, order);
    hide Owned, Inv, IsExact, CountsFit, NoneTaken, Report, Run, LegalRun, DoStart, CallsOnly, NoDuplicates, Stopped, Session;
    var owner := OwnersInside(s, h, rest);
    ReportOfState(h + rest, |h|, Run(Stopped(Run(DoStart(s), h)), rest), owner, order);
  }

  lemma OwnersInside(s: State, h: seq<Event>, rest: seq<Event>) returns (owner: map<Addr, nat>)
    requires Inv(s) && CallsOnly(h) && CallsOnly(rest)
    requires LegalRun(DoStart(s), h) && LegalRun(Stopped(Run(DoStart(s), h)), rest)
    ensures var t := Run(Stopped(Run(DoStart(s), h)), rest); Owned(h + rest, |h|, t.memory, owner) && Inv(t)
  {
    hide Owned, Inv, Run, LegalRun, DoStart, CallsOnly;
    StartInv(s);
    OwnedNone(s, |h|);
    assert [] + h == h;
    owner := History(DoStart(s), [], |h|, map[], h);
    StopInv(Run(DoStart(s), h));
    owner := History(Stopped(Run(DoStart(s), h)), h, |h|, owner, rest);
  }

  lemma StartInv(s: State)
    requires Inv(s)
    ensures Inv(DoStart(s)) && DoStart(s).tracking
  {
    StepInv(s, Start);
  }

  lemma StopInv(s: State)
    requires Inv(s)
    ensures Inv(Stopped(s))
  {
  }

  lemma AfterCalls(s: State, h: seq<Event>, rest: seq<Event>, order: seq<Addr>)
    requires LegalRun(s, Session(h, rest) + [Flush(order)])
    ensures LegalRun(DoStart(s), h) && LegalRun(Stopped(Run(DoStart(s), h)), rest)
    ensures LegalRun(s, Session(h, rest))
    ensures Run(s, Session(h, rest)) == Run(Stopped(Run(DoStart(s), h)), rest)
    ensures Enumerates(order, Run(s, Session(h, rest)).memory.Keys)
  {
    hide NoDuplicates;
    RunSplit(s, Session(h, rest), [Flush(order)]);
    RunSplit(s, [Start] + h + [StopTracking], rest);
    RunSplit(s, [Start] + h, [StopTracking]);
    RunSplit(s, [Start], h);
    RunOne(s, Start);
    RunOne(Run(s, [Start] + h), StopTracking);
    RunOne(Run(s, Session(h, rest)), Flush(order));
  }

  /** With no call between its last two steps, the report of `Finish` is exact exactly when no block was freed too often
      for a 32-bit count. */
  lemma ReportIsExact(s: State, h: seq<Event>, order: seq<Addr>)
    requires Inv(s) && CallsOnly(h) && LegalRun(s, [Start] + h + [StopTracking, Flush(order)])
    ensures LegalRun(s, [Start] + h)
    ensures forall i :: 0 <= i < |order| ==> order[i] in Run(s, [Start] + h).memory
    ensures IsExact(h, Report(Run(s, [Start] + h).memory, order)) <==> CountsFit(h)
  {
    hide NoDuplicates, IsExact, CountsFit, Inv, CallsOnly;
    EmptySession(h, order);
    NoCalls();
    ReportExactInside(s, h, [], order);
    NoneLater(h);
    StopKeepsMemory(s, h);
    hide Session, Run, LegalRun, Report;
  }

  /** Where another thread calls `Start` inside `Finish`, the `Flush` of that `Finish` reports on the calls since that
      `Start`, exactly under the same condition. */
  lemma ReportAfterRestart(s: State, h: seq<Event>, order: seq<Addr>)
    requires Inv(s) && CallsOnly(h) && LegalRun(s, [Start] + h + [Flush(order)])
    ensures LegalRun(s, [Start] + h)
    ensures forall i :: 0 <= i < |order| ==> order[i] in Run(s, [Start] + h).memory
    ensures IsExact(h, Report(Run(s, [Start] + h).memory, order)) <==> CountsFit(h)
  {
    RunSplit(s, [Start] + h, [Flush(order)]);
    RunOne(Run(s, [Start] + h), Flush(order));
    hide NoDuplicates, IsExact, CountsFit, Inv, CallsOnly, Run, LegalRun, Report;
    FinishLegal(s, [Start] + h, order);
    assert [Start] + h + [StopTracking, Flush(order)] == ([Start] + h) + [StopTracking, Flush(order)];
    ReportIsExact(s, h, order);
  }

  lemma EmptySession(h: seq<Event>, order: seq<Addr>)
    ensures Session(h, []) + [Flush(order)] == [Start] + h + [StopTracking, Flush(order)]
    ensures Session(h, []) == [Start] + h + [StopTracking] && h + [] == h
  {
  }

  lemma StopKeepsMemory(s: State, h: seq<Event>)
    requires LegalRun(s, [Start] + h + [StopTracking])
    ensures LegalRun(s, [Start] + h) && Run(s, [Start] + h + [StopTracking]).memory == Run(s, [Start] + h).memory
  {
    RunSplit(s, [Start] + h, [StopTracking]);
    RunOne(Run(s, [Start] + h), StopTracking);
  }

  lemma NoCalls()
    ensures CallsOnly([])
  {
  }

  lemma NoneLater(h: seq<Event>)
    ensures NoneTaken(h, |h|)
  {
  }

  // ----- Where the report is wrong -----

  lemma EmptyIsWrong(h: seq<Event>, i: nat)
    requires i < |h| && Faulty(h, i)
    ensures !IsExact(h, [])
  {
    hide Faulty;
    forall who ensures !ExactReport(h, [], who) {
      assert |who| == 0 ==> i !in who;
    }
  }

  /** A block that was freed `n` times before tracking ended. */
  function Freed(a: Addr, num: nat, file: string, line: int, n: nat): seq<Event> {
    [Malloc(num, file, line, Some(a))] + seq(n, _ => Free(a))
  }

  lemma {:induction false} FreedCounts(a: Addr, num: nat, file: string, line: int, n: nat)
    ensures var h := Freed(a, num, file, line, n);
      && CallsOnly(h) && Creates(h, 0) && AddrOf(h, 0) == a
      && Latest(h, 0, |h|) && Current(h, 0) && FreeCount(h, 0) == n
    decreases n
  {
    var h := Freed(a, num, file, line, n);
    if n == 0 {
      BlockNew([], 0, Malloc(num, file, line, Some(a)));
      assert h == [] + [Malloc(num, file, line, Some(a))];
    } else {
      FreedCounts(a, num, file, line, n - 1);
      var init := Freed(a, num, file, line, n - 1);
      assert h == init + [Free(a)];
      hide Freed, Latest, Current, FreeCount;
      CurrentNext(init, Free(a), 0);
      LatestNext(init, Free(a), 0);
      FreeCountNext(init, Free(a), 0);
    }
  }

  /** The state after tracking a block that is freed `n` times. */
  function Counted(a: Addr, num: nat, file: string, line: int, n: nat): State {
    State(true, map[a := Info(file, line, num, a, false, WrapInt32(n))], {a}, [Acquire(a)])
  }

  lemma FreedRun(a: Addr, num: nat, file: string, line: int, n: nat)
    ensures var es := [Start] + Freed(a, num, file, line, n);
      LegalRun(INITIAL, es) && Run(INITIAL, es) == Counted(a, num, file, line, n)
  {
    var malloc, frees := Malloc(num, file, line, Some(a)), seq(n, _ => Free(a));
    var es := [Start] + Freed(a, num, file, line, n);
    var started := DoStart(INITIAL);
    var filed := Step(started, malloc);
    assert started.memory == map[];
    WrapCount(0);
    FreesCount(filed, a, n);
    assert es[1..][1..] == frees && es[1..] == [malloc] + frees;
    RunFirst(started, es[1..]);
    RunFirst(INITIAL, es);
    assert Run(INITIAL, es).memory == Counted(a, num, file, line, n).memory;
  }

  /** Freed `2^31` times, a block is not reported, and `Flush` leaves it unmarked. With tracking off it stays unreported;
      but where another thread calls `Start` inside `Finish` and the block is made after that, the `Flush` of that `Finish`
      runs with tracking on, and a later one may report the block. */
  lemma TooManyFrees(a: Addr, num: nat, file: string, line: int)
    ensures var h := Freed(a, num, file, line, 0x8000_0000);
      && CallsOnly(h) && LegalRun(INITIAL, [Start] + h + [StopTracking, Flush([a])]) && LegalRun(INITIAL, [Start] + h)
      && Faulty(h, 0) && !CountsFit(h)
      && var t := Run(INITIAL, [Start] + h);
        && t.memory.Keys == {a} && Report(t.memory, [a]) == [] && !IsExact(h, [])
        && !AllSkipped(DoFlush(Stopped(t), [a]).memory) && StaysSilent(DoFlush(Stopped(t), [a]))
        && var es := [StopTracking, Start] + h + [Flush([a])];
          LegalRun(INITIAL, es) && !StaysSilent(Run(INITIAL, es))
  {
    var n := 0x8000_0000;
    var h := Freed(a, num, file, line, n);
    var t := Counted(a, num, file, line, n);
    FreedCounts(a, num, file, line, n);
    FreedRun(a, num, file, line, n);
    assert WrapInt32(n) == -n;
    EmptyIsWrong(h, 0);
    ReportsNothing(t, a);
    hide Freed, FreeCount, Current, IsExact, StaysSilent;
    FinishLegal(INITIAL, [Start] + h, [a]);
    assert a in DoFlush(t, [a]).memory && a in DoFlush(Stopped(t), [a]).memory;
    RunInv(INITIAL, [Start] + h);
    StopInv(t);
    SecondFlushSilent(Stopped(t), [a]);
    RestartedRun(h, t, [a]);
    NegativeWakes(DoFlush(t, [a]), a);
  }

  /** A run of `Start` and calls is also one after `Finish` has cleared the flag, and `Flush` may follow it at once. */
  lemma RestartedRun(h: seq<Event>, t: State, order: seq<Addr>)
    requires LegalRun(INITIAL, [Start] + h) && t == Run(INITIAL, [Start] + h) && Enumerates(order, t.memory.Keys)
    ensures var es := [StopTracking, Start] + h + [Flush(order)]; LegalRun(INITIAL, es) && Run(INITIAL, es) == DoFlush(t, order)
  {
    var es, calls := [StopTracking, Start] + h + [Flush(order)], [Start] + h;
    assert Step(INITIAL, StopTracking) == INITIAL;
    RunOne(t, Flush(order));
    RunSplit(INITIAL, calls, [Flush(order)]);
    assert es[1..] == calls + [Flush(order)];
    RunFirst(INITIAL, es);
  }

  lemma ReportsNothing(t: State, a: Addr)
    requires t.memory.Keys == {a} && !Reported(t.memory[a])
    ensures Report(t.memory, [a]) == []
  {
    assert [a][..0] == [];
  }

  lemma FinishLegal(s: State, es: seq<Event>, order: seq<Addr>)
    requires LegalRun(s, es) && Enumerates(order, Run(s, es).memory.Keys)
    ensures LegalRun(s, es + [StopTracking, Flush(order)])
  {
    var last := [StopTracking, Flush(order)];
    assert last[1..] == [Flush(order)];
    var t := Run(s, es);
    RunOne(Stopped(t), Flush(order));
    RunFirst(t, last);
    RunSplit(s, es, last);
  }

  /** A free between the last two steps of `Finish` takes the block away before it is reported. */
  lemma CallInsideFinishHides(a: Addr, num: nat, file: string, line: int)
    ensures var h := Freed(a, num, file, line, 2);
      && LegalRun(INITIAL, Session(h, [Free(a)]) + [Flush([])])
      && LegalRun(INITIAL, [Start] + h) && Run(INITIAL, [Start] + h).memory.Keys == {a}
      && Report(Run(INITIAL, [Start] + h).memory, [a]) == [Problem(MultipleFree, num, 2, file, line)]
      && LegalRun(INITIAL, Session(h, [Free(a)])) && Run(INITIAL, Session(h, [Free(a)])).memory == map[]
      && CountsFit(h + [Free(a)]) && !NoneTaken(h + [Free(a)], |h|) && !IsExact(h + [Free(a)], [])
  {
    var h := Freed(a, num, file, line, 2);
    FreedRun(a, num, file, line, 2);
    FreedCounts(a, num, file, line, 2);
    FreedCounts(a, num, file, line, 3);
    assert h + [Free(a)] == Freed(a, num, file, line, 3);
    var t := Run(INITIAL, [Start] + h);
    RunOne(t, StopTracking);
    RunSplit(INITIAL, [Start] + h, [StopTracking]);
    RunOne(Stopped(t), Free(a));
    RunSplit(INITIAL, [Start] + h + [StopTracking], [Free(a)]);
    var u := Run(INITIAL, Session(h, [Free(a)]));
    RunOne(u, Flush([]));
    RunSplit(INITIAL, Session(h, [Free(a)]), [Flush([])]);
    ReportOfOne(t.memory, a);
    EmptyIsWrong(h + [Free(a)], 0);
    TakenNext(h, |h|, Free(a), 0);
    OnlyBlock(h + [Free(a)]);
  }

  lemma OnlyBlock(h: seq<Event>)
    requires h != [] && Creates(h, 0) && FreeCount(h, 0) <= INT32_MAX && forall i :: 0 < i < |h| ==> h[i].Free?
    ensures CountsFit(h)
  {
    hide FreeCount, Moves;
  }

  lemma ReportOfOne(m: map<Addr, Info>, a: Addr)
    requires a in m && Reported(m[a])
    ensures Report(m, [a]) == [ProblemOf(m[a])]
  {
    assert [a][..0] == [];
  }
}
