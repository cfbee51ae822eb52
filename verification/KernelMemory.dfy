/** The kernel heap (src/mm/slab.rs) as one of the clients of the page allocator, beside the page tables. */
module KernelMemory {
  import opened Options
  import opened Sequences
  import opened PhysAddr
  import opened PmmSpec
  import opened SlabSpec
  import opened PageTables
  import opened SharedMemory
  import SlabHeap

  type Heap = SlabHeap.Heap

  /** The pages of a slab. */
  function SlabRun(h: Heap, c: nat, i: nat): Run
    requires c < |h| && i < |h[c].slabs|
  {
    Run(h[c].slabs[i].page, Pages(h[c]))
  }

  ghost predicate HoldsSlabs(k: Kernel, h: Heap) {
    forall c, i :: 0 <= c < |h| && 0 <= i < |h[c].slabs| ==> SlabRun(h, c, i) in k.live
  }

  // -------- the heap takes its pages --------

  /** What `init` asks of the page allocator: for each class a page, the slab's pages, and a page. */
  function Grabs(sizes: seq<nat>, header: nat): seq<Event> {
    if sizes == [] then []
    else [Grab(1), Grab(PagesPerSlab(sizes[0], header)), Grab(1)] + Grabs(sizes[1..], header)
  }

  /** `k'` is `k` with more pages taken, and nothing else. */
  ghost predicate Took(k: Kernel, k': Kernel, free: seq<bool>) {
    KernelOk(k) && KernelOk(k') && k.live <= k'.live && k'.vm.roots == k.vm.roots && k'.vm.s == k.vm.s.(free := free)
  }

  lemma GrabTakes(k: Kernel, n: nat)
    requires KernelOk(k) && SlabHeap.TakePages(k.vm.s.free, n).Some?
    ensures Next(k, Grab(n)).Some? && Next(k, Grab(n)).value.1 == []
    ensures var (free, p) := SlabHeap.TakePages(k.vm.s.free, n).value;
      Took(k, Next(k, Grab(n)).value.0, free) && Run(p, n) in Next(k, Grab(n)).value.0.live
  {
    hide Inv, ClientsOk;
    NextOk(k, Grab(n));
  }

  lemma HistoryFirst(k: Kernel, e: Event, es: seq<Event>)
    requires KernelOk(k) && Next(k, e).Some? && Next(k, e).value.1 == []
    ensures KernelOk(Next(k, e).value.0) && History(k, [e] + es) == History(Next(k, e).value.0, es)
  {
    hide KernelOk, Next;
    NextOk(k, e);
    assert ([e] + es)[1..] == es;
    var r := History(Next(k, e).value.0, es);
    if r.Some? {
      assert [] + r.value.1 == r.value.1;
    }
  }

  /** One class. */
  lemma AddCacheGrabs(k: Kernel, h: Heap, size: nat, header: nat, es: seq<Event>) returns (k': Kernel)
    requires KernelOk(k) && HoldsSlabs(k, h) && SlabHeap.AddCache(k.vm.s.free, h, size, header).Some?
    ensures var (free, h') := SlabHeap.AddCache(k.vm.s.free, h, size, header).value; Took(k, k', free) && HoldsSlabs(k', h')
    ensures History(k, [Grab(1), Grab(PagesPerSlab(size, header)), Grab(1)] + es) == History(k', es)
  {
    hide KernelOk, Next, SlabHeap.TakePages, PagesPerSlab, History;
    var n := PagesPerSlab(size, header);
    GrabTakes(k, 1);
    var k1 := Next(k, Grab(1)).value.0;
    GrabTakes(k1, n);
    var k2 := Next(k1, Grab(n)).value.0;
    GrabTakes(k2, 1);
    k' := Next(k2, Grab(1)).value.0;
    HistoryFirst(k2, Grab(1), es);
    HistoryFirst(k1, Grab(n), [Grab(1)] + es);
    HistoryFirst(k, Grab(1), [Grab(n)] + ([Grab(1)] + es));
    assert [Grab(1), Grab(n), Grab(1)] + es == [Grab(1)] + ([Grab(n)] + ([Grab(1)] + es));
    var h' := SlabHeap.AddCache(k.vm.s.free, h, size, header).value.1;
    forall c, i | 0 <= c < |h'| && 0 <= i < |h'[c].slabs| ensures SlabRun(h', c, i) in k'.live {
      if c > 0 {
        assert h'[c] == h[c - 1] && SlabRun(h, c - 1, i) in k.live;
      }
    }
  }

  /** `init` is a history of allocations, after which the kernel holds the pages of every slab. */
  lemma {:induction false} InitGrabs(k: Kernel, h: Heap, sizes: seq<nat>, header: nat) returns (k': Kernel)
    requires KernelOk(k) && HoldsSlabs(k, h) && SlabHeap.AddAll(k.vm.s.free, h, sizes, header).Some?
    ensures var (free, h') := SlabHeap.AddAll(k.vm.s.free, h, sizes, header).value; Took(k, k', free) && HoldsSlabs(k', h')
    ensures History(k, Grabs(sizes, header)) == Some((k', []))
    decreases |sizes|
  {
    hide KernelOk, Next, SlabHeap.AddCache, HoldsSlabs;
    if sizes == [] {
      k' := k;
    } else {
      var k1 := AddCacheGrabs(k, h, sizes[0], header, Grabs(sizes[1..], header));
      k' := InitGrabs(k1, SlabHeap.AddCache(k.vm.s.free, h, sizes[0], header).value.1, sizes[1..], header);
    }
  }

  // -------- and keeps them --------

  ghost predicate SameSlabs(h: Heap, h': Heap) {
    |h'| == |h| && forall c :: 0 <= c < |h| ==>
      |h'[c].slabs| == |h[c].slabs| && Pages(h'[c]) == Pages(h[c]) && forall i :: 0 <= i < |h[c].slabs| ==> h'[c].slabs[i].page == h[c].slabs[i].page
  }

  lemma StepSameSlabs(s: SlabHeap.Client, op: SlabHeap.Request)
    requires SlabHeap.ClientOk(s) && SlabHeap.Step(s, op).Some?
    ensures SameSlabs(s.heap, SlabHeap.Step(s, op).value.heap)
  {
    hide PagesPerSlab, SlabHeap.CacheFor, CacheOk, SlabHeap.CachesApart;
    match op
    case Alloc(size) =>
      var _ := SlabHeap.HeapAllocPlace(s.heap, size);
    case Dealloc(ptr) =>
      if ptr in s.live {
        var w :| SlabHeap.Backed(s, ptr, w);
        SlabHeap.HeapFreePlace(s.heap, w, s.live[ptr]);
      }
  }

  /** No request moves a slab. */
  lemma {:induction false} RunSameSlabs(s: SlabHeap.Client, reqs: seq<SlabHeap.Request>)
    requires SlabHeap.ClientOk(s) && SlabHeap.Run(s, reqs).Some?
    ensures SameSlabs(s.heap, SlabHeap.Run(s, reqs).value.heap)
    decreases |reqs|
  {
    hide PagesPerSlab, SlabHeap.Step, CacheOk, SlabHeap.CachesApart, SlabHeap.Tracks;
    if reqs != [] {
      SlabHeap.StepOk(s, reqs[0]);
      StepSameSlabs(s, reqs[0]);
      RunSameSlabs(SlabHeap.Step(s, reqs[0]).value, reqs[1..]);
    }
  }

  predicate Returns(e: Event, x: Run) {
    e.GiveBack? && e.run == x
  }

  lemma {:induction false} StaysLive(k: Kernel, es: seq<Event>, x: Run)
    requires KernelOk(k) && History(k, es).Some? && x in k.live && forall n :: 0 <= n < |es| ==> !Returns(es[n], x)
    ensures x in History(k, es).value.0.live
    decreases |es|
  {
    if es != [] {
      assert !Returns(es[0], x);
      NextOk(k, es[0]);
      NextLive(k, es[0], x);
      StaysLive(Next(k, es[0]).value.0, es[1..], x);
    }
  }

  lemma NextLive(k: Kernel, e: Event, x: Run)
    requires KernelOk(k) && Next(k, e).Some? && x in k.live && !Returns(e, x)
    ensures x in Next(k, e).value.0.live
  {
  }

  /** The pages of a run hold no table and are not free, and no other client has one of them. */
  ghost predicate Exclusive(k: Kernel, x: Run) {
    && (forall page: nat :: Covers(x, page) ==> NotTable(k.vm.s.mem, k.vm.roots, page) && !(page < |k.vm.s.free| && k.vm.s.free[page]))
    && (forall y :: y in k.live && y != x ==> RunsApart(x, y))
  }

  lemma LiveExclusive(k: Kernel, x: Run)
    requires KernelOk(k) && x in k.live
    ensures Exclusive(k, x)
  {
    hide NotTable, Inv;
    assert RunOk(k, x);
  }

  /**
    The heap beside everyone else: whatever page-table operations, allocations, frees and
    stores happen that do not give back the heap's own pages, and whatever requests its
    clients make, every live object lies inside a slab whose pages are no tables, not free,
    and no other client's.
   */
  lemma HeapExclusive(k: Kernel, es: seq<Event>, s: SlabHeap.Client, reqs: seq<SlabHeap.Request>, ptr: nat)
    requires KernelOk(k) && History(k, es).Some? && SlabHeap.ClientOk(s) && SlabHeap.Run(s, reqs).Some? && HoldsSlabs(k, s.heap)
    requires forall n, c, i :: 0 <= n < |es| && 0 <= c < |s.heap| && 0 <= i < |s.heap[c].slabs| ==> !Returns(es[n], SlabRun(s.heap, c, i))
    requires ptr in SlabHeap.Run(s, reqs).value.live
    ensures var s' := SlabHeap.Run(s, reqs).value;
      exists w :: SlabHeap.Inside(s', ptr, w) && Exclusive(History(k, es).value.0, SlabRun(s'.heap, w.c, w.k))
  {
    hide KernelOk, Next, History, PagesPerSlab, Exclusive, SlabHeap.Run, CacheOk, Returns;
    var s', k' := SlabHeap.Run(s, reqs).value, History(k, es).value.0;
    SlabHeap.LiveObjectsSafe(s, reqs, ptr, ptr);
    var w :| SlabHeap.Inside(s', ptr, w);
    RunSameSlabs(s, reqs);
    var x := SlabRun(s.heap, w.c, w.k);
    assert SlabRun(s'.heap, w.c, w.k) == x;
    StaysLive(k, es, x);
    LiveExclusive(k', x);
  }

  /** From `init` on, with the kernel's own ten classes. */
  lemma BootedHeapHeld(k: Kernel, header: nat) returns (k': Kernel)
    requires KernelOk(k) && SlabHeap.AddAll(k.vm.s.free, [], SlabHeap.CLASSES, header).Some?
    ensures var h := SlabHeap.AddAll(k.vm.s.free, [], SlabHeap.CLASSES, header).value.1;
      && History(k, Grabs(SlabHeap.CLASSES, header)) == Some((k', [])) && KernelOk(k') && HoldsSlabs(k', h)
      && SlabHeap.ClientOk(SlabHeap.Client(h, map[]))
  {
    hide KernelOk, SlabHeap.AddAll, SlabHeap.ClientOk, Grabs, History;
    SlabHeap.KernelHeap(k.vm.s.free, header, 0);
    k' := InitGrabs(k, [], SlabHeap.CLASSES, header);
  }
}
