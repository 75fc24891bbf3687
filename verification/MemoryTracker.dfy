/** The tracking allocator that replaces OpenSSL's malloc, realloc and free. */
module MemoryTrackers {
  import opened FixedWidth
  import opened TypedValues
  import opened TrackerMachine

  class Block {
    const file: string
    const line: int
    const bytes: nat
    const ptr: Addr
    var skip: bool
    var count: int

    constructor (ptr: Addr, bytes: nat, file: string, line: int)
      ensures View() == NewBlock(ptr, bytes, file, line)
    {
      this.ptr := ptr;
      this.bytes := bytes;
      this.file := file;
      this.line := line;
      skip := false;
      count := 0;
    }

    function View(): Info
      reads this
    {
      Info(file, line, bytes, ptr, skip, count)
    }

    /** What `Flush` finds out about one block: what to report, and whether to free it. A leak is marked. */
    method Examine() returns (found: seq<Problem>, free: bool)
      modifies this`skip
      ensures View() == Marked(old(View()))
      ensures found == if Reported(old(View())) then [ProblemOf(old(View()))] else []
      ensures free == Doomed(old(View()))
    {
      found, free := [], false;
      if !skip {
        if count == 0 {
          skip := true;
        }
        if count > 0 {
          free := true;
        }
        if count == 0 || count > 1 {
          found := [Problem(if count == 0 then Leaked else MultipleFree, bytes, count, file, line)];
        }
      }
    }
  }

  /** `Marshal.AllocHGlobal` and its companions: any unused address, or out of memory. */
  class NativeHeap {
    var live: set<Addr>
    ghost var trace: seq<NativeOp>

    method AllocHGlobal() returns (p: Option<Addr>)
      modifies this
      ensures p.None? ==> live == old(live) && trace == old(trace)
      ensures p.Some? ==> p.value !in old(live) && live == old(live) + {p.value} && trace == old(trace) + [Acquire(p.value)]
    {
      if * {
        return None;
      }
      UnusedAddress(live);
      var a: Addr :| a !in live;
      live := live + {a};
      trace := trace + [Acquire(a)];
      return Some(a);
    }

    method FreeHGlobal(a: Addr)
      requires a in live
      modifies this
      ensures live == old(live) - {a} && trace == old(trace) + [Release(a)]
    {
      live := live - {a};
      trace := trace + [Release(a)];
    }

    method ReAllocHGlobal(a: Addr) returns (p: Option<Addr>)
      requires a in live
      modifies this
      ensures p.None? ==> live == old(live) && trace == old(trace)
      ensures p.Some? ==>
        && p.value !in old(live) - {a} && live == old(live) - {a} + {p.value}
        && trace == old(trace) + [Release(a), Acquire(p.value)]
    {
      if * {
        return None;
      }
      var b: Addr :| b !in live || b == a;
      live := live - {a} + {b};
      trace := trace + [Release(a), Acquire(b)];
      return Some(b);
    }
  }

  class MemoryTracker {
    var tracking: bool
    var memory: map<Addr, Block>
    const heap: NativeHeap

    /** Each block is filed under its own address, which is live. */
    ghost predicate Valid()
      reads this, heap, memory.Values
    {
      forall a :: a in memory ==> memory[a].ptr == a && a in heap.live
    }

    ghost function View(): State
      reads this, heap, memory.Values
    {
      State(tracking, map a | a in memory :: memory[a].View(), heap.live, heap.trace)
    }

    constructor (heap: NativeHeap)
      requires heap.live == {} && heap.trace == []
      ensures Valid() && this.heap == heap && View() == INITIAL
    {
      this.heap := heap;
      tracking := false;
      memory := map[];
    }

    method Start()
      requires Valid()
      modifies this`tracking, memory.Values
      ensures Valid() && memory == old(memory) && View() == DoStart(old(View()))
    {
      tracking := true;
      var todo := memory.Keys;
      while todo != {}
        invariant Valid() && tracking && todo <= memory.Keys && heap.live == old(heap.live) && heap.trace == old(heap.trace)
        invariant forall a :: a in memory ==>
          memory[a].View() == if a in todo then old(memory[a].View()) else old(memory[a].View()).(skip := true)
        decreases todo
      {
        SomeElement(todo);
        var a :| a in todo;
        var block := memory[a];
        block.skip := true;
        todo := todo - {a};
        assert forall b :: b in memory && b != a ==> memory[b] != block;
      }
      ghost var m, m' := View().memory, DoStart(old(View())).memory;
      assert m.Keys == m'.Keys;
      assert forall a :: a in m ==> m[a] == m'[a];
      assert m == m';
    }

    /** The last steps of `Finish`. */
    method StopTracking()
      requires Valid()
      modifies this`tracking
      ensures Valid() && View() == old(View()).(tracking := false)
    {
      tracking := false;
    }

    method Malloc(num: nat, file: string, line: int) returns (p: Option<Addr>)
      requires Valid()
      modifies this`memory, heap
      ensures Valid() && fresh(memory.Values - old(memory.Values))
      ensures Legal(old(View()), Event.Malloc(num, file, line, p))
      ensures View() == DoMalloc(old(View()), num, file, line, p)
    {
      p := heap.AllocHGlobal();
      if p.None? {
        return;
      }
      var block := new Block(p.value, num, file, line);
      assert p.value !in memory;
      memory := memory[block.ptr := block];
    }

    method Free(addr: Addr)
      requires Valid()
      modifies this`memory, heap, memory.Values
      ensures Valid() && memory.Values <= old(memory.Values)
      ensures View() == DoFree(old(View()), addr)
    {
      if addr !in memory {
        return;
      }
      var block := memory[addr];
      if tracking {
        ghost var before := View().memory;
        block.count := WrapInt32(block.count + 1);
        assert forall b :: b in memory && b != addr ==> memory[b] != block;
        assert View().memory == before[addr := before[addr].(count := WrapInt32(before[addr].count + 1))];
      } else {
        heap.FreeHGlobal(addr);
        memory := memory - {addr};
        assert View().memory == old(View()).memory - {addr};
        SubMap(memory, old(memory));
      }
    }

    method Realloc(addr: Addr, num: nat, file: string, line: int) returns (p: Option<Addr>)
      requires Valid()
      modifies this`memory, heap
      ensures Valid() && fresh(memory.Values - old(memory.Values))
      ensures Legal(old(View()), Event.Realloc(addr, num, file, line, p))
      ensures View() == DoRealloc(old(View()), addr, num, file, line, p)
    {
      if addr !in memory {
        p := Malloc(num, file, line);
        return;
      }
      memory := memory - {addr};
      p := heap.ReAllocHGlobal(addr);
      if p.None? {
        return;
      }
      var block := new Block(p.value, num, file, line);
      assert p.value !in memory;
      memory := memory[block.ptr := block];
    }

    /** The first loop of `Flush`: report, mark the leaked blocks and collect the blocks to free. */
    method Classify() returns (problems: seq<Problem>, frees: seq<Block>, ghost order: seq<Addr>)
      requires Valid()
      modifies memory.Values
      ensures memory == old(memory) && tracking == old(tracking) && heap.live == old(heap.live) && heap.trace == old(heap.trace)
      ensures Enumerates(order, memory.Keys)
      ensures problems == Report(old(View()).memory, order)
      ensures Collected(memory, DoomedIn(old(View()).memory, order), frees)
      ensures forall a :: a in memory ==> memory[a].View() == Marked(old(View()).memory[a])
    {
      hide Report, DoomedIn, Marked, Reported, Doomed, ProblemOf;
      ghost var m := View().memory;
      problems, order, frees := [], [], [];
      ReportEmpty(m);
      assert m.Keys == memory.Keys;
      hide Visited, Collected;
      NoneVisited(memory.Keys);
      NoneCollected(memory);
      var todo := memory.Keys;
      while todo != {}
        invariant Valid() && todo <= memory.Keys
        invariant memory == old(memory) && tracking == old(tracking)
        invariant heap.live == old(heap.live) && heap.trace == old(heap.trace)
        invariant Visited(memory.Keys, order, todo)
        invariant problems == Report(m, order)
        invariant Collected(memory, DoomedIn(m, order), frees)
        invariant forall a :: a in memory ==> memory[a].View() == if a in todo then m[a] else Marked(m[a])
        decreases todo
      {
        SomeElement(todo);
        var a :| a in todo;
        var block := memory[a];
        assert forall b :: b in memory && b != a ==> memory[b] != block;
        ReportNext(m, order, a, todo);
        VisitedNext(memory.Keys, order, todo, a);
        CollectedNext(memory, DoomedIn(m, order), frees, a, block);
        order := order + [a];
        todo := todo - {a};
        var found, free := block.Examine();
        if free {
          frees := frees + [block];
        }
        problems := problems + found;
      }
      AllVisited(memory.Keys, order);
    }

    /** The second loop of `Flush`: free the collected blocks and forget them. */
    method FreeBlocks(frees: seq<Block>, ghost doomed: seq<Addr>)
      requires Valid() && NoDuplicates(doomed)
      requires Collected(memory, doomed, frees)
      modifies this`memory, heap
      ensures tracking == old(tracking) && heap.trace == old(heap.trace) + Releases(doomed)
      ensures forall a :: a in heap.live <==> a in old(heap.live) && a !in doomed
      ensures forall a :: a in memory <==> a in old(memory) && a !in doomed
      ensures forall a :: a in memory ==> memory[a] == old(memory)[a]
    {
      for i := 0 to |frees|
        invariant heap.trace == old(heap.trace) + Releases(doomed[..i])
        invariant forall a :: a in memory <==> a in old(memory) && a !in doomed[..i]
        invariant forall a :: a in heap.live <==> a in old(heap.live) && a !in doomed[..i]
        invariant forall a :: a in memory ==> memory[a] == old(memory)[a]
      {
        var block := frees[i];
        assert Filed(old(memory), doomed[i], block);
        assert doomed[..i + 1] == doomed[..i] + [doomed[i]];
        assert Releases(doomed[..i + 1]) == Releases(doomed[..i]) + [Release(doomed[i])];
        heap.FreeHGlobal(block.ptr);
        memory := memory - {block.ptr};
      }
      assert doomed[..|frees|] == doomed;
    }

    /** `order` is the order in which the dictionary happened to be enumerated. */
    method Flush() returns (problems: seq<Problem>, ghost order: seq<Addr>)
      requires Valid()
      modifies this`memory, heap, memory.Values
      ensures Valid() && memory.Values <= old(memory.Values)
      ensures Enumerates(order, old(memory.Keys))
      ensures problems == Report(old(View()).memory, order)
      ensures View() == DoFlush(old(View()), order)
    {
      hide Report, DoomedIn, NoDuplicates, Doomed, Marked, Kept, Releases, Collected;
      ghost var m := View().memory;
      var frees: seq<Block>;
      problems, frees, order := Classify();
      ghost var doomed := DoomedIn(m, order);
      DoomedOnce(m, order);
      FreeBlocks(frees, doomed);
      assert forall a :: a in memory ==> a in old(memory);
      assert forall a :: a in memory ==> memory[a] == old(memory)[a];
      SubMap(memory, old(memory));
      FreedIs(m, old(heap.live), heap.live, doomed);
      KeptIs(m, View().memory, doomed);
    }
  }

  lemma FreedIs(m: map<Addr, Info>, before: set<Addr>, after: set<Addr>, doomed: seq<Addr>)
    requires forall a :: a in after <==> a in before && a !in doomed
    requires forall a :: a in doomed <==> a in m && Doomed(m[a])
    ensures after == before - (set a | a in m && Doomed(m[a]))
  {
    hide Doomed;
    var freed := set a | a in m && Doomed(m[a]);
    assert forall a :: a in freed <==> a in doomed;
    assert forall a :: a in after <==> a in before && a !in freed;
  }

  lemma KeptIs(m: map<Addr, Info>, kept: map<Addr, Info>, doomed: seq<Addr>)
    requires forall a :: a in doomed <==> a in m && Doomed(m[a])
    requires forall a :: a in kept <==> a in m && a !in doomed
    requires forall a :: a in kept ==> kept[a] == Marked(m[a])
    ensures kept == Kept(m)
  {
    hide Doomed, Marked;
    forall a ensures a in kept <==> a in Kept(m) {
      assert a in doomed <==> a in m && Doomed(m[a]);
    }
    assert forall a :: a in kept ==> kept[a] == Kept(m)[a];
  }

  lemma ReportEmpty(m: map<Addr, Info>)
    ensures Report(m, []) == [] && DoomedIn(m, []) == []
  {
  }

  /** The enumeration has passed `order` and has still to visit `todo`. */
  ghost predicate Visited(keys: set<Addr>, order: seq<Addr>, todo: set<Addr>) {
    && todo <= keys && NoDuplicates(order)
    && (forall i :: 0 <= i < |order| ==> order[i] in keys)
    && (forall a :: a in keys ==> (a in order <==> a !in todo))
  }

  lemma NoneVisited(keys: set<Addr>)
    ensures Visited(keys, [], keys)
  {
  }

  lemma VisitedNext(keys: set<Addr>, order: seq<Addr>, todo: set<Addr>, a: Addr)
    requires Visited(keys, order, todo) && a in todo
    ensures Visited(keys, order + [a], todo - {a})
  {
    assert a !in order;
  }

  lemma AllVisited(keys: set<Addr>, order: seq<Addr>)
    requires Visited(keys, order, {})
    ensures Enumerates(order, keys)
  {
  }

  /** `frees` are the blocks filed under the addresses `doomed`. */
  ghost predicate Collected(memory: map<Addr, Block>, doomed: seq<Addr>, frees: seq<Block>) {
    |frees| == |doomed| && forall i :: 0 <= i < |frees| ==> Filed(memory, doomed[i], frees[i])
  }

  lemma NoneCollected(memory: map<Addr, Block>)
    ensures Collected(memory, [], [])
  {
  }

  lemma CollectedNext(memory: map<Addr, Block>, doomed: seq<Addr>, frees: seq<Block>, a: Addr, block: Block)
    requires Collected(memory, doomed, frees) && Filed(memory, a, block)
    ensures Collected(memory, doomed + [a], frees + [block])
    ensures doomed + [] == doomed
  {
  }

  lemma ReportNext(m: map<Addr, Info>, order: seq<Addr>, a: Addr, todo: set<Addr>)
    requires a in m && Visited(m.Keys, order, todo)
    ensures Report(m, order + [a]) == Report(m, order) + if Reported(m[a]) then [ProblemOf(m[a])] else []
    ensures DoomedIn(m, order + [a]) == DoomedIn(m, order) + if Doomed(m[a]) then [a] else []
  {
    assert (order + [a])[..|order|] == order;
  }

  lemma Bounded(s: set<Addr>) returns (top: Addr)
    ensures forall a :: a in s ==> a < top
  {
    if s == {} {
      top := 0;
    } else {
      SomeElement(s);
      var x :| x in s;
      var rest := Bounded(s - {x});
      top := if rest > x then rest else x + 1;
      forall a | a in s ensures a < top {
        assert a == x || a in s - {x};
      }
    }
  }

  lemma UnusedAddress(s: set<Addr>)
    ensures exists a: Addr :: a !in s
  {
    var top := Bounded(s);
    assert top !in s;
  }

  lemma SubMap<K, V>(a: map<K, V>, b: map<K, V>)
    requires forall k :: k in a ==> k in b && a[k] == b[k]
    ensures a.Values <= b.Values
  {
  }

  ghost predicate Filed(memory: map<Addr, Block>, a: Addr, block: Block) {
    a in memory && memory[a] == block && block.ptr == a
  }
}
