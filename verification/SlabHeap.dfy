/** The whole kernel heap: all size classes together, under every run of its clients. */
module SlabHeap {
  import opened Arith
  import opened Bits
  import opened Options
  import opened Sequences
  import opened PhysAddr
  import opened PmmSpec
  import opened SlabSpec

  type Heap = seq<Cache>

  /** Object `i` of slab `k` of cache `c`. */
  datatype Place = Place(c: nat, k: nat, i: nat)

  predicate IsPlace(h: Heap, w: Place) {
    w.c < |h| && w.k < |h[w.c].slabs| && w.i < OBJS_PER_SLAB
  }

  function SlabAt(h: Heap, w: Place): Slab
    requires IsPlace(h, w)
  {
    h[w.c].slabs[w.k]
  }

  function PtrAt(h: Heap, w: Place): nat
    requires IsPlace(h, w)
  {
    Addr(SlabAt(h, w), w.i)
  }

  ghost predicate CachesOk(h: Heap) {
    forall c :: 0 <= c < |h| ==> CacheOk(h[c])
  }

  predicate ApartAt(h: Heap, c: nat, k: nat, c': nat, k': nat)
    requires c < |h| && c' < |h| && k < |h[c].slabs| && k' < |h[c'].slabs|
  {
    Apart(h[c].slabs[k].page, Pages(h[c]), h[c'].slabs[k'].page, Pages(h[c']))
  }

  /** Slabs of different caches share no page. */
  ghost predicate CachesApart(h: Heap) {
    forall c, k, c', k' :: 0 <= c < c' < |h| && 0 <= k < |h[c].slabs| && 0 <= k' < |h[c'].slabs| ==>
      ApartAt(h, c, k, c', k')
  }

  ghost predicate HeapOk(h: Heap) {
    CachesOk(h) && CachesApart(h)
  }

  predicate Issued(h: Heap, w: Place)
    requires CachesOk(h)
  {
    IsPlace(h, w) && SlabAt(h, w).bits[w.i]
  }

  // -------- size classes --------

  /** The first cache, from `c` on, whose objects hold `size` bytes. */
  function CacheFor(h: Heap, size: nat, c: nat): (r: Option<nat>)
    ensures r.Some? ==> c <= r.value < |h| && h[r.value].size >= size
    ensures r.Some? ==> forall j :: c <= j < r.value ==> h[j].size < size
    ensures r.None? ==> forall j :: c <= j < |h| ==> h[j].size < size
    decreases |h| - c
  {
    if c >= |h| then None
    else if h[c].size >= size then Some(c)
    else CacheFor(h, size, c + 1)
  }

  ghost predicate Ascending(h: Heap) {
    forall i, j :: 0 <= i < j < |h| ==> h[i].size < h[j].size
  }

  /** Prepending smaller and smaller classes keeps the list sorted, so the first fit is the tightest. */
  lemma TightestClass(h: Heap, size: nat)
    requires Ascending(h)
    ensures var r := CacheFor(h, size, 0);
      && (r.Some? ==> forall j :: 0 <= j < |h| && h[j].size >= size ==> h[r.value].size <= h[j].size)
      && (r.None? <==> (h == [] || h[|h| - 1].size < size))
  {
    var r := CacheFor(h, size, 0);
    if r.None? && h != [] {
      assert h[|h| - 1].size < size;
    }
  }

  // -------- the allocator --------

  /** `GlobalAlloc::alloc`; `None` is a panic or the walk off a full class. */
  function HeapAlloc(h: Heap, size: nat): Option<(Heap, nat)>
    requires CachesOk(h)
  {
    match CacheFor(h, size, 0)
    case None => None
    case Some(c) =>
      match AllocObj(h[c])
      case None => None
      case Some((cache, ptr)) => Some((h[c := cache], ptr))
  }

  function HeapFree(h: Heap, ptr: nat, size: nat): Option<Heap>
    requires CachesOk(h)
  {
    match CacheFor(h, size, 0)
    case None => None
    case Some(c) =>
      match FreeObj(h[c], ptr)
      case None => None
      case Some(cache) => Some(h[c := cache])
  }

  /** The heap with the object at `w` marked used or unused. */
  function Mark(h: Heap, w: Place, used: bool): Heap
    requires CachesOk(h) && IsPlace(h, w)
    requires used ==> SlabAt(h, w).freeObjs > 0
  {
    var s := SlabAt(h, w);
    var s' := s.(bits := s.bits[w.i := used], freeObjs := if used then s.freeObjs - 1 else s.freeObjs + 1);
    h[w.c := h[w.c].(slabs := h[w.c].slabs[w.k := s'])]
  }

  lemma MarkCaches(h: Heap, w: Place, used: bool)
    requires CachesOk(h) && IsPlace(h, w) && SlabAt(h, w).bits[w.i] != used
    requires used ==> SlabAt(h, w).freeObjs > 0
    ensures CachesOk(Mark(h, w, used))
  {
    CountSetUpdate(SlabAt(h, w).bits, OBJS_PER_SLAB, w.i, used);
    assert CacheOk(h[w.c]);
    assert CacheOk(Mark(h, w, used)[w.c]);
  }

  lemma MarkOk(h: Heap, w: Place, used: bool)
    requires HeapOk(h) && IsPlace(h, w) && SlabAt(h, w).bits[w.i] != used
    requires used ==> SlabAt(h, w).freeObjs > 0
    ensures HeapOk(Mark(h, w, used))
  {
    MarkCaches(h, w, used);
    var h' := Mark(h, w, used);
    forall c, k, c', k' | 0 <= c < c' < |h'| && 0 <= k < |h'[c].slabs| && 0 <= k' < |h'[c'].slabs|
      ensures ApartAt(h', c, k, c', k')
    {
      assert ApartAt(h, c, k, c', k');
    }
  }

  lemma MarkPlace(h: Heap, w: Place, used: bool, v: Place)
    requires HeapOk(h) && IsPlace(h, w) && SlabAt(h, w).bits[w.i] != used
    requires used ==> SlabAt(h, w).freeObjs > 0
    requires CachesOk(Mark(h, w, used))
    ensures Issued(Mark(h, w, used), v) <==> if v == w then used else Issued(h, v)
    ensures IsPlace(h, v) <==> IsPlace(Mark(h, w, used), v)
    ensures IsPlace(h, v) ==> PtrAt(Mark(h, w, used), v) == PtrAt(h, v)
  {
  }

  lemma {:induction false} MarkClass(h: Heap, w: Place, used: bool, size: nat, c: nat)
    requires HeapOk(h) && IsPlace(h, w)
    requires used ==> SlabAt(h, w).freeObjs > 0
    ensures CacheFor(Mark(h, w, used), size, c) == CacheFor(h, size, c)
    decreases |h| - c
  {
    if c < |h| {
      MarkClass(h, w, used, size, c + 1);
    }
  }

  /** Distinct places hold disjoint ranges of bytes, each inside its slab's pages past the header. */
  lemma PlacesApart(h: Heap, v: Place, w: Place)
    requires HeapOk(h) && IsPlace(h, v) && IsPlace(h, w) && v != w
    ensures PtrAt(h, v) + h[v.c].size <= PtrAt(h, w) || PtrAt(h, w) + h[w.c].size <= PtrAt(h, v)
  {
    ObjectInPages(h[v.c].size, h[v.c].header, v.i);
    ObjectInPages(h[w.c].size, h[w.c].header, w.i);
    if v.c == w.c && v.k == w.k {
      if v.i < w.i {
        UnitsOrdered(h[v.c].size, v.i, w.i);
      } else {
        UnitsOrdered(h[v.c].size, w.i, v.i);
      }
    } else {
      SlabsApart(h, v, w);
    }
  }

  lemma SlabsApart(h: Heap, v: Place, w: Place)
    requires HeapOk(h) && IsPlace(h, v) && IsPlace(h, w) && (v.c != w.c || v.k != w.k)
    ensures ApartAt(h, v.c, v.k, w.c, w.k)
  {
    if v.c == w.c {
      assert CacheOk(h[v.c]);
    } else if v.c < w.c {
      assert ApartAt(h, v.c, v.k, w.c, w.k);
    } else {
      assert ApartAt(h, w.c, w.k, v.c, v.k);
    }
  }

  /** An allocation takes the first unused place of the chosen class; it fails only when the class is full or absent. */
  lemma HeapAllocPlace(h: Heap, size: nat) returns (w: Place)
    requires HeapOk(h)
    ensures HeapAlloc(h, size).Some? ==>
      && IsPlace(h, w) && CacheFor(h, size, 0) == Some(w.c)
      && !SlabAt(h, w).bits[w.i] && SlabAt(h, w).freeObjs > 0
      && HeapAlloc(h, size) == Some((Mark(h, w, true), PtrAt(h, w)))
      && (forall v :: IsPlace(h, v) && v.c == w.c && (v.k < w.k || (v.k == w.k && v.i < w.i)) ==> Issued(h, v))
    ensures HeapAlloc(h, size).None? ==>
      CacheFor(h, size, 0).None? ||
      forall v :: IsPlace(h, v) && CacheFor(h, size, 0) == Some(v.c) ==> Issued(h, v)
  {
    w := Place(0, 0, 0);
    var c := CacheFor(h, size, 0);
    if c.Some? {
      var k := FirstWithSpace(h[c.value].slabs, 0);
      if k.Some? {
        var s := h[c.value].slabs[k.value];
        SlabAllocOk(s);
        w := Place(c.value, k.value, FirstClear(s.bits[..OBJS_PER_SLAB], 0).value);
        forall v | IsPlace(h, v) && v.c == w.c && (v.k < w.k || (v.k == w.k && v.i < w.i)) ensures Issued(h, v) {
          if v.k < w.k {
            FullIffAllSet(SlabAt(h, v).bits, OBJS_PER_SLAB);
          } else {
            assert s.bits[..OBJS_PER_SLAB][v.i];
          }
        }
      } else {
        forall v | IsPlace(h, v) && v.c == c.value ensures Issued(h, v) {
          FullIffAllSet(SlabAt(h, v).bits, OBJS_PER_SLAB);
        }
      }
    }
  }

  lemma HeapFreePlace(h: Heap, w: Place, size: nat)
    requires HeapOk(h) && Issued(h, w) && CacheFor(h, size, 0) == Some(w.c)
    ensures HeapFree(h, PtrAt(h, w), size) == Some(Mark(h, w, false))
  {
    FreeObjFinds(h[w.c], w.k, w.i, PtrAt(h, w));
  }

  // -------- clients --------

  /** The heap, and what its clients hold: each live pointer with the size asked for. */
  datatype Client = Client(heap: Heap, live: map<nat, nat>)

  datatype Request = Alloc(size: nat) | Dealloc(ptr: nat)

  /** A client may only give back what it holds, with the size it asked for. */
  function Step(s: Client, op: Request): Option<Client>
    requires CachesOk(s.heap)
  {
    match op
    case Alloc(size) => (
      match HeapAlloc(s.heap, size)
      case None => None
      case Some((h, ptr)) => Some(Client(h, s.live[ptr := size])))
    case Dealloc(ptr) =>
      if ptr !in s.live then Some(s)
      else
        match HeapFree(s.heap, ptr, s.live[ptr])
        case None => None
        case Some(h) => Some(Client(h, s.live - {ptr}))
  }

  ghost predicate Backed(s: Client, ptr: nat, w: Place)
    requires CachesOk(s.heap)
  {
    && ptr in s.live && Issued(s.heap, w) && PtrAt(s.heap, w) == ptr
    && CacheFor(s.heap, s.live[ptr], 0) == Some(w.c)
  }

  /** Live pointers and set bits correspond. */
  ghost predicate Tracks(s: Client)
    requires CachesOk(s.heap)
  {
    && (forall ptr :: ptr in s.live ==> exists w :: Backed(s, ptr, w))
    && (forall w :: Issued(s.heap, w) ==> PtrAt(s.heap, w) in s.live)
  }

  ghost predicate ClientOk(s: Client) {
    HeapOk(s.heap) && Tracks(s)
  }

  lemma SamePlace(h: Heap, v: Place, w: Place)
    requires HeapOk(h) && IsPlace(h, v) && IsPlace(h, w) && PtrAt(h, v) == PtrAt(h, w)
    ensures v == w
  {
    if v != w {
      assert CacheOk(h[v.c]) && CacheOk(h[w.c]);
      PlacesApart(h, v, w);
      assert false;
    }
  }

  lemma AllocTracks(s: Client, size: nat, w: Place)
    requires ClientOk(s) && IsPlace(s.heap, w) && CacheFor(s.heap, size, 0) == Some(w.c)
    requires !SlabAt(s.heap, w).bits[w.i] && SlabAt(s.heap, w).freeObjs > 0
    ensures PtrAt(s.heap, w) !in s.live
    ensures ClientOk(Client(Mark(s.heap, w, true), s.live[PtrAt(s.heap, w) := size]))
  {
    var ptr := PtrAt(s.heap, w);
    MarkOk(s.heap, w, true);
    if ptr in s.live {
      var v :| Backed(s, ptr, v);
      SamePlace(s.heap, v, w);
      assert false;
    }
    var s' := Client(Mark(s.heap, w, true), s.live[ptr := size]);
    forall p | p in s'.live ensures exists v :: Backed(s', p, v) {
      var v := w;
      if p != ptr {
        v :| Backed(s, p, v);
      }
      MarkClass(s.heap, w, true, s'.live[p], 0);
      MarkPlace(s.heap, w, true, v);
      assert Backed(s', p, v);
    }
    forall v | Issued(s'.heap, v) ensures PtrAt(s'.heap, v) in s'.live {
      MarkPlace(s.heap, w, true, v);
    }
  }

  lemma FreeTracks(s: Client, ptr: nat, w: Place)
    requires ClientOk(s) && Backed(s, ptr, w)
    ensures ClientOk(Client(Mark(s.heap, w, false), s.live - {ptr}))
  {
    MarkOk(s.heap, w, false);
    var s' := Client(Mark(s.heap, w, false), s.live - {ptr});
    forall p | p in s'.live ensures exists v :: Backed(s', p, v) {
      var v :| Backed(s, p, v);
      MarkClass(s.heap, w, false, s.live[p], 0);
      MarkPlace(s.heap, w, false, v);
      assert Backed(s', p, v);
    }
    forall v | Issued(s'.heap, v) ensures PtrAt(s'.heap, v) in s'.live {
      MarkPlace(s.heap, w, false, v);
      if PtrAt(s.heap, v) == ptr {
        SamePlace(s.heap, v, w);
        assert false;
      }
    }
  }

  lemma StepOk(s: Client, op: Request)
    requires ClientOk(s)
    ensures op.Dealloc? ==> Step(s, op).Some?
    ensures op.Alloc? ==> (Step(s, op).Some? <==> HeapAlloc(s.heap, op.size).Some?)
    ensures Step(s, op).Some? ==> ClientOk(Step(s, op).value)
    ensures Step(s, op).Some? ==>
      match op
      case Alloc(size) => exists ptr: nat :: ptr !in s.live && Step(s, op).value.live == s.live[ptr := size]
      case Dealloc(ptr) => Step(s, op).value.live == s.live - {ptr} && (ptr !in s.live ==> Step(s, op).value == s)
  {
    match op
    case Alloc(size) =>
      var w := HeapAllocPlace(s.heap, size);
      if Step(s, op).Some? {
        AllocTracks(s, size, w);
        assert Step(s, op).value.live == s.live[PtrAt(s.heap, w) := size];
      }
    case Dealloc(ptr) =>
      if ptr in s.live {
        var w :| Backed(s, ptr, w);
        HeapFreePlace(s.heap, w, s.live[ptr]);
        FreeTracks(s, ptr, w);
      }
  }

  ghost function Run(s: Client, ops: seq<Request>): (r: Option<Client>)
    requires ClientOk(s)
    ensures r.Some? ==> ClientOk(r.value)
    decreases |ops|
  {
    if ops == [] then Some(s)
    else
      StepOk(s, ops[0]);
      match Step(s, ops[0])
      case None => None
      case Some(s1) => Run(s1, ops[1..])
  }

  /** A run followed by one more request. */
  lemma {:induction false} RunAppend(s: Client, ops: seq<Request>, op: Request)
    requires ClientOk(s)
    ensures Run(s, []) == Some(s)
    ensures Run(s, ops + [op]) == if Run(s, ops).None? then None else Step(Run(s, ops).value, op)
    decreases |ops|
  {
    hide CachesOk, CachesApart, Tracks, Step;
    if ops == [] {
      assert ops + [op] == [op];
      assert [op][1..] == [];
      StepOk(s, op);
    } else {
      assert (ops + [op])[1..] == ops[1..] + [op];
      StepOk(s, ops[0]);
      if Step(s, ops[0]).Some? {
        RunAppend(Step(s, ops[0]).value, ops[1..], op);
      }
    }
  }

  /** `ptr` lies past the header and, with the size asked for, inside the pages of the slab at `w`. */
  ghost predicate Inside(s: Client, ptr: nat, w: Place)
    requires CachesOk(s.heap)
  {
    && Backed(s, ptr, w) && PHYS_BASE + SlabAt(s.heap, w).page * PAGE_SIZE + SlabAt(s.heap, w).header <= ptr
    && ptr + s.live[ptr] <= PHYS_BASE + (SlabAt(s.heap, w).page + Pages(s.heap[w.c])) * PAGE_SIZE
  }

  lemma BackedInside(s: Client, ptr: nat, w: Place)
    requires ClientOk(s) && Backed(s, ptr, w)
    ensures Inside(s, ptr, w)
  {
    ObjectInPages(s.heap[w.c].size, s.heap[w.c].header, w.i);
  }

  lemma LiveApart(s: Client, p: nat, q: nat)
    requires ClientOk(s) && p in s.live && q in s.live && p != q
    ensures p + s.live[p] <= q || q + s.live[q] <= p
  {
    var v :| Backed(s, p, v);
    var w :| Backed(s, q, w);
    PlacesApart(s.heap, v, w);
  }

  /**
    Whole-run safety: after any run the live objects are pairwise disjoint, each inside
    pages of its own slab past the header.
   */
  lemma LiveObjectsSafe(s: Client, ops: seq<Request>, p: nat, q: nat)
    requires ClientOk(s) && Run(s, ops).Some?
    requires p in Run(s, ops).value.live && q in Run(s, ops).value.live
    ensures var live := Run(s, ops).value.live; p == q || p + live[p] <= q || q + live[q] <= p
    ensures exists w :: Inside(Run(s, ops).value, p, w)
  {
    var s' := Run(s, ops).value;
    if p != q {
      LiveApart(s', p, q);
    }
    var w :| Backed(s', p, w);
    BackedInside(s', p, w);
  }

  /** An allocation never hands out a live pointer, and fails exactly when no place of the class is unused. */
  lemma AllocFresh(s: Client, size: nat)
    requires ClientOk(s)
    ensures HeapAlloc(s.heap, size).Some? ==> HeapAlloc(s.heap, size).value.1 !in s.live
    ensures HeapAlloc(s.heap, size).Some? <==>
      exists w :: IsPlace(s.heap, w) && CacheFor(s.heap, size, 0) == Some(w.c) && PtrAt(s.heap, w) !in s.live
  {
    var w := HeapAllocPlace(s.heap, size);
    if HeapAlloc(s.heap, size).Some? {
      AllocTracks(s, size, w);
    }
  }

  // -------- building the heap from the page allocator --------

  ghost predicate Taken(free: seq<bool>, start: nat, n: nat) {
    start + n <= |free| && forall page :: start <= page < start + n ==> !free[page]
  }

  /** Every slab occupies pages the page allocator holds as taken. */
  ghost predicate OnTakenPages(free: seq<bool>, h: Heap) {
    forall c, k :: 0 <= c < |h| && 0 <= k < |h[c].slabs| ==> Taken(free, h[c].slabs[k].page, Pages(h[c]))
  }

  function TakePages(free: seq<bool>, n: nat): Option<(seq<bool>, nat)> {
    match Find(free, n)
    case None => None
    case Some(p) => Some((Fill(free, p, n, false), p))
  }

  function EmptySlab(page: nat, header: nat, size: nat): Slab {
    Slab(page, header, size, seq(8 * PAGE_SIZE, _ => false), OBJS_PER_SLAB)
  }

  /** `add_cache`: a page for the cache, the pages of its slab, a page for the slab's bitmap. */
  function AddCache(free: seq<bool>, h: Heap, size: nat, header: nat): Option<(seq<bool>, Heap)> {
    match TakePages(free, 1)
    case None => None
    case Some((f1, _)) =>
      match TakePages(f1, PagesPerSlab(size, header))
      case None => None
      case Some((f2, page)) =>
        match TakePages(f2, 1)
        case None => None
        case Some((f3, _)) => Some((f3, [Cache(size, header, [EmptySlab(page, header, size)])] + h))
  }

  ghost predicate HasRun(free: seq<bool>, n: nat) {
    n > 0 && exists s: nat :: RunAt(free, s, n)
  }

  /** The lowest run of `n` free pages. */
  ghost predicate IsFirst(free: seq<bool>, n: nat, p: nat) {
    n > 0 && RunAt(free, p, n) && forall s :: 0 <= s < p ==> !RunAt(free, s, n)
  }

  /** What is free once `n` pages are taken. */
  function Left(free: seq<bool>, n: nat): seq<bool> {
    match TakePages(free, n)
    case None => free
    case Some((free', _)) => free'
  }

  lemma TakePagesIff(free: seq<bool>, n: nat)
    ensures TakePages(free, n).Some? <==> HasRun(free, n)
    ensures TakePages(free, n).Some? ==> IsFirst(free, n, TakePages(free, n).value.1) && Without(free, Left(free, n), PmmSpec.Run.Run(TakePages(free, n).value.1, n))
  {
  }

  /** The first class of a heap has one slab, on the pages from `page` on, with none of its 256 objects in use. */
  ghost predicate FreshClass(h: Heap, size: nat, header: nat, page: nat) {
    && h != [] && h[0].size == size && h[0].header == header && |h[0].slabs| == 1
    && var s := h[0].slabs[0];
       && s.page == page && s.header == header && s.size == size && s.freeObjs == 256
       && |s.bits| == 0x8000 && forall i :: 0 <= i < 0x8000 ==> !s.bits[i]
  }

  /**
    A class is built exactly when each of its three requests finds a run of that many free
    pages; the lowest runs are taken, and the class, with an empty slab in the second, is
    put in front of the others.
   */
  lemma AddCacheIff(free: seq<bool>, h: Heap, size: nat, header: nat)
    ensures var n := PagesPerSlab(size, header);
      AddCache(free, h, size, header).Some? <==>
        HasRun(free, 1) && HasRun(Left(free, 1), n) && HasRun(Left(Left(free, 1), n), 1)
    ensures AddCache(free, h, size, header).Some? ==>
      && var (free', h') := AddCache(free, h, size, header).value; var n := PagesPerSlab(size, header);
         && free' == Left(Left(Left(free, 1), n), 1) && |h'| == |h| + 1 && h'[1..] == h
         && exists p :: IsFirst(Left(free, 1), n, p) && FreshClass(h', size, header, p)
  {
    hide TakePages;
    var n := PagesPerSlab(size, header);
    TakePagesIff(free, 1);
    TakePagesIff(Left(free, 1), n);
    TakePagesIff(Left(Left(free, 1), n), 1);
    if AddCache(free, h, size, header).Some? {
      var p, h' := TakePages(Left(free, 1), n).value.1, AddCache(free, h, size, header).value.1;
      assert FreshClass(h', size, header, p);
    }
  }

  /** Taking `n` pages from free memory with `m` consecutive pages leaves the last `m - n` of them. */
  lemma TakeShifts(free: seq<bool>, s: nat, m: nat, n: nat)
    requires RunAt(free, s, m) && 0 < n <= m
    ensures TakePages(free, n).Some? && RunAt(TakePages(free, n).value.0, s + n, m - n)
  {
    assert RunAt(free, s, n);
  }

  /** How many pages building the classes takes. */
  function PagesFor(sizes: seq<nat>, header: nat): nat {
    if sizes == [] then 0 else PagesPerSlab(sizes[0], header) + 2 + PagesFor(sizes[1..], header)
  }

  lemma AddCacheFits(free: seq<bool>, h: Heap, size: nat, header: nat, s: nat, m: nat)
    requires size > 0 && RunAt(free, s, m) && PagesPerSlab(size, header) + 2 <= m
    ensures AddCache(free, h, size, header).Some?
    ensures var n := PagesPerSlab(size, header); RunAt(AddCache(free, h, size, header).value.0, s + n + 2, m - n - 2)
  {
    hide TakePages;
    var n := PagesPerSlab(size, header);
    DivCeilLeast(OBJS_PER_SLAB * size + header, PAGE_SIZE);
    TakeShifts(free, s, m, 1);
    var f1 := TakePages(free, 1).value.0;
    TakeShifts(f1, s + 1, m - 1, n);
    TakeShifts(TakePages(f1, n).value.0, s + 1 + n, m - 1 - n, 1);
  }

  ghost predicate Built(free: seq<bool>, h: Heap) {
    HeapOk(h) && OnTakenPages(free, h)
  }

  lemma {:induction false} EmptyCount(bits: seq<bool>, n: nat)
    requires n <= |bits| && forall i :: 0 <= i < n ==> !bits[i]
    ensures CountSet(bits, n) == 0
  {
    if n > 0 {
      EmptyCount(bits, n - 1);
    }
  }

  lemma TakeKeeps(free: seq<bool>, h: Heap, n: nat)
    requires OnTakenPages(free, h) && TakePages(free, n).Some?
    ensures OnTakenPages(TakePages(free, n).value.0, h)
  {
  }

  /** Pages just taken are apart from every slab built before. */
  lemma TakenApart(free: seq<bool>, h: Heap, n: nat, c: nat, k: nat)
    requires CachesOk(h) && OnTakenPages(free, h) && TakePages(free, n).Some? && c < |h| && k < |h[c].slabs|
    ensures Apart(TakePages(free, n).value.1, n, h[c].slabs[k].page, Pages(h[c]))
  {
    var p, q := TakePages(free, n).value.1, h[c].slabs[k].page;
    assert Taken(free, q, Pages(h[c]));
    assert Pages(h[c]) > 0 by { DivCeilLeast(OBJS_PER_SLAB * h[c].size + h[c].header, PAGE_SIZE); }
    var page := if p <= q then q else p;
    var isFree := page < |free| && free[page];
    if !Apart(p, n, q, Pages(h[c])) {
      assert false;
    }
  }

  lemma AddCacheBuilt(free: seq<bool>, h: Heap, size: nat, header: nat)
    requires Built(free, h) && size > 0 && AddCache(free, h, size, header).Some?
    ensures var (free', h') := AddCache(free, h, size, header).value; Built(free', h')
  {
    var n := PagesPerSlab(size, header);
    var (f1, _) := TakePages(free, 1).value;
    TakeKeeps(free, h, 1);
    var (f2, page) := TakePages(f1, n).value;
    TakeKeeps(f1, h, n);
    var cache := Cache(size, header, [EmptySlab(page, header, size)]);
    var h' := [cache] + h;
    EmptyCount(cache.slabs[0].bits, OBJS_PER_SLAB);
    forall c, k, c', k' | 0 <= c < c' < |h'| && 0 <= k < |h'[c].slabs| && 0 <= k' < |h'[c'].slabs|
      ensures ApartAt(h', c, k, c', k')
    {
      if c == 0 {
        TakenApart(f1, h, n, c' - 1, k');
      } else {
        assert ApartAt(h, c - 1, k, c' - 1, k');
      }
    }
    forall c, k | 0 <= c < |h'| && 0 <= k < |h'[c].slabs|
      ensures Taken(f2, h'[c].slabs[k].page, Pages(h'[c]))
    {
      if c > 0 {
        assert h'[c] == h[c - 1];
      }
    }
    TakeKeeps(f2, h', 1);
  }

  /** `init`: the classes are added largest first, each at the front of the list. */
  function AddAll(free: seq<bool>, h: Heap, sizes: seq<nat>, header: nat): Option<(seq<bool>, Heap)>
    decreases |sizes|
  {
    if sizes == [] then Some((free, h))
    else
      match AddCache(free, h, sizes[0], header)
      case None => None
      case Some((free', h')) => AddAll(free', h', sizes[1..], header)
  }

  /** So many consecutive free pages, wherever they are, are enough. */
  lemma {:induction false} AddAllFits(free: seq<bool>, h: Heap, sizes: seq<nat>, header: nat, s: nat, m: nat)
    requires RunAt(free, s, m) && PagesFor(sizes, header) <= m && forall i :: 0 <= i < |sizes| ==> sizes[i] > 0
    ensures AddAll(free, h, sizes, header).Some?
    decreases |sizes|
  {
    hide AddCache, PagesPerSlab;
    if sizes != [] {
      AddCacheFits(free, h, sizes[0], header, s, m);
      var (free', h') := AddCache(free, h, sizes[0], header).value;
      var n := PagesPerSlab(sizes[0], header) + 2;
      AddAllFits(free', h', sizes[1..], header, s + n, m - n);
    }
  }

  ghost predicate Descending(sizes: seq<nat>) {
    forall i, j :: 0 <= i < j < |sizes| ==> sizes[i] > sizes[j]
  }

  /** The finished heap is well formed, sorted by class, nothing in it is in use. */
  lemma {:induction false} AddAllBuilt(free: seq<bool>, h: Heap, sizes: seq<nat>, header: nat)
    requires Built(free, h) && Ascending(h) && Descending(sizes)
    requires forall i :: 0 <= i < |sizes| ==> sizes[i] > 0
    requires h != [] && sizes != [] ==> sizes[0] < h[0].size
    requires AddAll(free, h, sizes, header).Some?
    requires forall w :: !Issued(h, w)
    ensures var (free', h') := AddAll(free, h, sizes, header).value;
      Built(free', h') && Ascending(h') && (forall w :: !Issued(h', w))
    decreases |sizes|
  {
    if sizes != [] {
      hide CacheOk, OnTakenPages, Issued, AddCache;
      AddCacheBuilt(free, h, sizes[0], header);
      AddCacheUnused(free, h, sizes[0], header);
      var (f1, h1) := AddCache(free, h, sizes[0], header).value;
      AddAllBuilt(f1, h1, sizes[1..], header);
    }
  }

  /** A new class is the first, and none of its objects is in use. */
  lemma AddCacheUnused(free: seq<bool>, h: Heap, size: nat, header: nat)
    requires CachesOk(h) && AddCache(free, h, size, header).Some? && CachesOk(AddCache(free, h, size, header).value.1)
    requires forall w :: !Issued(h, w)
    ensures var h1 := AddCache(free, h, size, header).value.1; h1 != [] && h1[1..] == h && h1[0].size == size && (forall w :: !Issued(h1, w))
  {
    var h1 := AddCache(free, h, size, header).value.1;
    forall w ensures !Issued(h1, w) {
      if IsPlace(h1, w) && w.c > 0 {
        assert !Issued(h, Place(w.c - 1, w.k, w.i));
      }
    }
  }

  const CLASSES: seq<nat> := [4096, 2048, 1024, 512, 256, 128, 64, 32, 16, 8]

  lemma {:induction false} AddAllSizes(free: seq<bool>, h: Heap, sizes: seq<nat>, header: nat)
    requires AddAll(free, h, sizes, header).Some?
    ensures var h' := AddAll(free, h, sizes, header).value.1;
      && |h'| == |sizes| + |h| && h'[|sizes|..] == h
      && forall i :: 0 <= i < |sizes| ==> h'[i].size == sizes[|sizes| - 1 - i]
    decreases |sizes|
  {
    if sizes != [] {
      var (f1, h1) := AddCache(free, h, sizes[0], header).value;
      AddAllSizes(f1, h1, sizes[1..], header);
      var h' := AddAll(free, h, sizes, header).value.1;
      assert h'[|sizes| - 1] == h'[|sizes| - 1..][0];
      assert h'[|sizes|..] == h'[|sizes| - 1..][1..];
    }
  }

  /** From boot on: the heap that `init` builds serves every run safely. */
  lemma InitReady(free: seq<bool>, sizes: seq<nat>, header: nat)
    requires Descending(sizes) && forall i :: 0 <= i < |sizes| ==> sizes[i] > 0
    requires AddAll(free, [], sizes, header).Some?
    ensures var (free', h) := AddAll(free, [], sizes, header).value;
      ClientOk(Client(h, map[])) && Ascending(h) && OnTakenPages(free', h)
  {
    AddAllBuilt(free, [], sizes, header);
  }

  /**
    The kernel's own ten classes: every run on them is safe, a request is served exactly up
    to 4096 bytes, and past 8 bytes it gets less than twice what it asked for.
   */
  lemma KernelHeap(free: seq<bool>, header: nat, size: nat)
    requires AddAll(free, [], CLASSES, header).Some?
    ensures var (free', h) := AddAll(free, [], CLASSES, header).value;
      && ClientOk(Client(h, map[])) && Ascending(h) && OnTakenPages(free', h)
      && (CacheFor(h, size, 0).Some? <==> size <= 4096)
      && (CacheFor(h, size, 0).Some? ==> var got := h[CacheFor(h, size, 0).value].size; size <= got && (got == 8 || got < 2 * size))
  {
    hide AddAll, ClientOk, OnTakenPages, Ascending, CacheFor, Descending;
    ClassesDescend();
    InitReady(free, CLASSES, header);
    AddAllSizes(free, [], CLASSES, header);
    KernelClass(AddAll(free, [], CLASSES, header).value.1, size);
  }

  lemma ClassesDescend()
    ensures Descending(CLASSES) && forall i :: 0 <= i < |CLASSES| ==> CLASSES[i] > 0
  {
  }

  /** With a slab header of at most 2048 bytes, 541 consecutive free pages are enough for the kernel's ten classes. */
  lemma KernelHeapFits(free: seq<bool>, header: nat, s: nat)
    requires 0 < header <= 2048 && RunAt(free, s, 541)
    ensures AddAll(free, [], CLASSES, header).Some?
  {
    hide AddAll;
    KernelPages(header);
    ClassesDescend();
    AddAllFits(free, [], CLASSES, header, s, 541);
  }

  lemma KernelPages(header: nat)
    requires 0 < header <= 2048
    ensures PagesFor(CLASSES, header) == 541
  {
    hide PagesPerSlab, PagesFor;
    HalfSlab(header);
    WholeSlab(1, header); WholeSlab(2, header); WholeSlab(4, header); WholeSlab(8, header); WholeSlab(16, header);
    WholeSlab(32, header); WholeSlab(64, header); WholeSlab(128, header); WholeSlab(256, header);
    PagesFrom(0, header); PagesFrom(1, header); PagesFrom(2, header); PagesFrom(3, header); PagesFrom(4, header);
    PagesFrom(5, header); PagesFrom(6, header); PagesFrom(7, header); PagesFrom(8, header); PagesFrom(9, header);
    assert CLASSES[0..] == CLASSES;
  }

  lemma PagesFrom(k: nat, header: nat)
    requires k < 10
    ensures PagesFor(CLASSES[k..], header) == PagesPerSlab(CLASSES[k], header) + 2 + (if k < 9 then PagesFor(CLASSES[k + 1..], header) else 0)
  {
    assert CLASSES[k..][1..] == CLASSES[k + 1..];
  }

  lemma WholeSlab(q: nat, header: nat)
    requires 0 < header <= 2048
    ensures PagesPerSlab(16 * q, header) == q + 1
  {
    DivModUnique(256 * (16 * q) + header + 4095, 4096, q + 1, header - 1);
  }

  lemma HalfSlab(header: nat)
    requires 0 < header <= 2048
    ensures PagesPerSlab(8, header) == 1
  {
  }

  lemma KernelClass(h: Heap, size: nat)
    requires |h| == 10 && forall i :: 0 <= i < 10 ==> h[i].size == CLASSES[9 - i]
    ensures CacheFor(h, size, 0).Some? <==> size <= 4096
    ensures CacheFor(h, size, 0).Some? ==> var got := h[CacheFor(h, size, 0).value].size; size <= got && (got == 8 || got < 2 * size)
  {
    hide CacheFor;
    var r := CacheFor(h, size, 0);
    if r.None? {
      assert h[9].size == CLASSES[0];
    } else if r.value > 0 {
      assert h[r.value].size == CLASSES[9 - r.value] && h[r.value - 1].size == CLASSES[10 - r.value];
    }
  }
}
