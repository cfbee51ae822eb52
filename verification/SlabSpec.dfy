/** The slab heap of src/mm/slab.rs as values: slabs, caches by size class, and whole runs. */
module SlabSpec {
  import opened Arith
  import opened Bits
  import opened Options
  import opened Sequences
  import opened PhysAddr
  import opened PmmSpec

  const OBJS_PER_SLAB: nat := 256

  // -------- counting --------

  function CountSet(bits: seq<bool>, n: nat): (r: nat)
    requires n <= |bits|
    ensures r <= n
  {
    if n == 0 then 0 else CountSet(bits, n - 1) + Digit(bits[n - 1])
  }

  lemma {:induction false} CountSetUpdate(bits: seq<bool>, n: nat, i: nat, v: bool)
    requires i < |bits| && n <= |bits|
    ensures CountSet(bits[i := v], n) == CountSet(bits, n) + (if i < n then Digit(v) - Digit(bits[i]) else 0)
  {
    if n > 0 {
      CountSetUpdate(bits, n - 1, i, v);
    }
  }

  /** The lowest clear bit from `from` on. */
  function FirstClear(bits: seq<bool>, from: nat): (r: Option<nat>)
    ensures r.Some? ==> from <= r.value < |bits| && !bits[r.value]
    ensures r.Some? ==> forall j :: from <= j < r.value ==> bits[j]
    ensures r.None? ==> forall j :: from <= j < |bits| ==> bits[j]
    decreases |bits| - from
  {
    if from >= |bits| then None
    else if !bits[from] then Some(from)
    else FirstClear(bits, from + 1)
  }

  lemma {:induction false} FullIffAllSet(bits: seq<bool>, n: nat)
    requires n <= |bits|
    ensures CountSet(bits, n) == n <==> forall j :: 0 <= j < n ==> bits[j]
  {
    if n > 0 {
      FullIffAllSet(bits, n - 1);
    }
  }

  // -------- one slab --------

  /** A slab: its first page, the size of its header, its objects' size, its bitmap and counter. */
  datatype Slab = Slab(page: nat, header: nat, size: nat, bits: seq<bool>, freeObjs: nat)

  function Data(s: Slab): nat {
    PHYS_BASE + s.page * PAGE_SIZE + s.header
  }

  function Addr(s: Slab, i: nat): nat {
    Data(s) + i * s.size
  }

  /** Where object `i` is, through the kernel's alias of physical memory. */
  lemma ObjectAddress(s: Slab, i: nat)
    ensures Addr(s, i) == 0xffff_8000_0000_0000 + s.page * 4096 + s.header + i * s.size
  {
  }

  ghost predicate SlabOk(s: Slab) {
    && s.size > 0 && |s.bits| >= OBJS_PER_SLAB
    && s.freeObjs == OBJS_PER_SLAB - CountSet(s.bits, OBJS_PER_SLAB)
  }

  /** `Slab::alloc`; the pointer 0 is null. */
  function SlabAlloc(s: Slab): (r: (Slab, nat))
    requires |s.bits| >= OBJS_PER_SLAB
  {
    if s.freeObjs == 0 then (s, 0)
    else
      match FirstClear(s.bits[..OBJS_PER_SLAB], 0)
      case None => (s, 0)
      case Some(i) => (s.(bits := s.bits[i := true], freeObjs := s.freeObjs - 1), Addr(s, i))
  }

  function BitOf(s: Slab, ptr: nat): nat
    requires s.size > 0 && ptr >= Data(s)
  {
    (ptr - Data(s)) / s.size
  }

  function SlabDealloc(s: Slab, ptr: nat): (r: Slab)
    requires s.size > 0 && ptr >= Data(s) && BitOf(s, ptr) < |s.bits|
  {
    s.(bits := s.bits[BitOf(s, ptr) := false], freeObjs := s.freeObjs + 1)
  }

  /** While the counter is positive the search succeeds, so the trailing null is never returned. */
  lemma SlabAllocOk(s: Slab)
    requires SlabOk(s) && s.freeObjs > 0
    ensures FirstClear(s.bits[..OBJS_PER_SLAB], 0).Some? && SlabAlloc(s).1 != 0
    ensures SlabOk(SlabAlloc(s).0)
  {
    FullIffAllSet(s.bits, OBJS_PER_SLAB);
    var i := FirstClear(s.bits[..OBJS_PER_SLAB], 0).value;
    CountSetUpdate(s.bits, OBJS_PER_SLAB, i, true);
    assert i * s.size >= 0;
  }

  /** Every pointer into an object gives the object's bit. */
  lemma BitOfAddr(s: Slab, i: nat, ptr: nat)
    requires s.size > 0 && Addr(s, i) <= ptr < Addr(s, i) + s.size
    ensures Addr(s, i) >= Data(s) && BitOf(s, ptr) == i
  {
    assert i * s.size >= 0;
    DivModUnique(ptr - Data(s), s.size, i, ptr - Addr(s, i));
  }

  lemma SlabDeallocOk(s: Slab, i: nat)
    requires SlabOk(s) && i < OBJS_PER_SLAB && s.bits[i]
    ensures Addr(s, i) >= Data(s) && BitOf(s, Addr(s, i)) == i
    ensures SlabOk(SlabDealloc(s, Addr(s, i)))
  {
    BitOfAddr(s, i, Addr(s, i));
    CountSetUpdate(s.bits, OBJS_PER_SLAB, i, false);
  }

  // -------- one cache --------

  datatype Cache = Cache(size: nat, header: nat, slabs: seq<Slab>)

  function PagesPerSlab(size: nat, header: nat): nat {
    DivCeil(OBJS_PER_SLAB * size + header, PAGE_SIZE)
  }

  function Pages(c: Cache): nat {
    PagesPerSlab(c.size, c.header)
  }

  predicate Apart(p: nat, n: nat, q: nat, m: nat) {
    p + n <= q || q + m <= p
  }

  ghost predicate CacheOk(c: Cache) {
    && c.size > 0
    && (forall k :: 0 <= k < |c.slabs| ==>
          SlabOk(c.slabs[k]) && c.slabs[k].size == c.size && c.slabs[k].header == c.header)
    && (forall j, k :: 0 <= j < k < |c.slabs| ==> Apart(c.slabs[j].page, Pages(c), c.slabs[k].page, Pages(c)))
  }

  /** The first slab, from `k` on, with a free object; `None` is the walk past the end of the list. */
  function FirstWithSpace(slabs: seq<Slab>, k: nat): (r: Option<nat>)
    ensures r.Some? ==> k <= r.value < |slabs| && slabs[r.value].freeObjs != 0
    ensures r.Some? ==> forall j :: k <= j < r.value ==> slabs[j].freeObjs == 0
    ensures r.None? ==> forall j :: k <= j < |slabs| ==> slabs[j].freeObjs == 0
    decreases |slabs| - k
  {
    if k >= |slabs| then None
    else if slabs[k].freeObjs != 0 then Some(k)
    else FirstWithSpace(slabs, k + 1)
  }

  function AllocObj(c: Cache): Option<(Cache, nat)>
    requires forall k :: 0 <= k < |c.slabs| ==> |c.slabs[k].bits| >= OBJS_PER_SLAB
  {
    match FirstWithSpace(c.slabs, 0)
    case None => None
    case Some(k) =>
      var (s, ptr) := SlabAlloc(c.slabs[k]);
      Some((c.(slabs := c.slabs[k := s]), ptr))
  }

  predicate InWindow(s: Slab, pages: nat, ptr: nat) {
    Data(s) <= ptr < Data(s) + pages * PAGE_SIZE
  }

  /** The first slab, from `k` on, whose lookup window holds `ptr`; `None` is the panic. */
  function FindWindow(slabs: seq<Slab>, pages: nat, ptr: nat, k: nat): (r: Option<nat>)
    ensures r.Some? ==> k <= r.value < |slabs| && InWindow(slabs[r.value], pages, ptr)
    ensures r.None? ==> forall j :: k <= j < |slabs| ==> !InWindow(slabs[j], pages, ptr)
    decreases |slabs| - k
  {
    if k >= |slabs| then None
    else if InWindow(slabs[k], pages, ptr) then Some(k)
    else FindWindow(slabs, pages, ptr, k + 1)
  }

  function FreeObj(c: Cache, ptr: nat): Option<Cache>
    requires forall k :: 0 <= k < |c.slabs| ==> c.slabs[k].size > 0
  {
    match FindWindow(c.slabs, Pages(c), ptr, 0)
    case None => None
    case Some(k) =>
      if BitOf(c.slabs[k], ptr) >= |c.slabs[k].bits| then None
      else Some(c.(slabs := c.slabs[k := SlabDealloc(c.slabs[k], ptr)]))
  }

  /** Object `i` lies after the header and inside its slab's pages. */
  lemma ObjectInPages(size: nat, header: nat, i: nat)
    requires i < OBJS_PER_SLAB
    ensures 0 <= i * size
    ensures header + i * size + size <= PagesPerSlab(size, header) * PAGE_SIZE
    ensures size > 0 ==> header + 256 * size > (PagesPerSlab(size, header) - 1) * 4096
  {
    DivCeilLeast(OBJS_PER_SLAB * size + header, PAGE_SIZE);
    UnitsOrdered(size, i, OBJS_PER_SLAB);
  }

  /** Windows of page-disjoint slabs never overlap, though each runs past its slab by the header. */
  lemma WindowsApart(s: Slab, s': Slab, pages: nat, ptr: nat)
    requires s.header == s'.header && Apart(s.page, pages, s'.page, pages)
    ensures !(InWindow(s, pages, ptr) && InWindow(s', pages, ptr))
  {
  }

  lemma {:induction false} FindWindowUnique(c: Cache, k: nat, ptr: nat, from: nat)
    requires CacheOk(c) && from <= k < |c.slabs| && InWindow(c.slabs[k], Pages(c), ptr)
    ensures FindWindow(c.slabs, Pages(c), ptr, from) == Some(k)
    decreases k - from
  {
    if from < k {
      WindowsApart(c.slabs[from], c.slabs[k], Pages(c), ptr);
      FindWindowUnique(c, k, ptr, from + 1);
    }
  }

  /** `free_obj` finds the slab that issued the object a pointer lies in, and clears the bit `alloc` had set. */
  lemma FreeObjFinds(c: Cache, k: nat, i: nat, ptr: nat)
    requires CacheOk(c) && k < |c.slabs| && i < OBJS_PER_SLAB && c.slabs[k].bits[i]
    requires Addr(c.slabs[k], i) <= ptr < Addr(c.slabs[k], i) + c.size
    ensures var s := c.slabs[k];
      FreeObj(c, ptr) ==
        Some(c.(slabs := c.slabs[k := s.(bits := s.bits[i := false], freeObjs := s.freeObjs + 1)]))
  {
    var s := c.slabs[k];
    ObjectInPages(c.size, c.header, i);
    BitOfAddr(s, i, ptr);
    FindWindowUnique(c, k, ptr, 0);
  }

  /** It panics exactly when the pointer is in no slab's window, or past what the slab's bitmap covers. */
  lemma FreeObjIff(c: Cache, ptr: nat)
    requires CacheOk(c)
    ensures FreeObj(c, ptr).Some? <==>
      exists k :: 0 <= k < |c.slabs| && InWindow(c.slabs[k], Pages(c), ptr) && BitOf(c.slabs[k], ptr) < |c.slabs[k].bits|
  {
    if k :| 0 <= k < |c.slabs| && InWindow(c.slabs[k], Pages(c), ptr) {
      FindWindowUnique(c, k, ptr, 0);
      forall j | 0 <= j < |c.slabs| && InWindow(c.slabs[j], Pages(c), ptr) ensures j == k {
        FindWindowUnique(c, j, ptr, 0);
      }
    }
  }
}
