/** The physical page allocator of src/arch/x86_64/mm/pmm.rs. */
module Options {
  datatype Option<+T> = None | Some(value: T)
}

module Sequences {
  /** `s` with the `n` elements from `start` on replaced by `v`. */
  function Fill<T>(s: seq<T>, start: nat, n: nat, v: T): (r: seq<T>)
    ensures |r| == |s|
    ensures forall i :: 0 <= i < |s| ==> r[i] == if start <= i < start + n then v else s[i]
  {
    seq(|s|, i requires 0 <= i < |s| => if start <= i < start + n then v else s[i])
  }
}

module PhysAddr {
  import opened Arith
  import opened Bits

  const PAGE_SIZE: nat := 4096
  /** Base of the kernel's alias of all physical memory. */
  const PHYS_BASE: u64 := 0xffff_8000_0000_0000
  /** Physical addresses reachable through that alias lie below this bound. */
  const PHYS_LIMIT: nat := 0x8000_0000_0000
  const MAX_FRAMES: nat := 0x8_0000_0000

  function HigherHalf(a: u64): nat {
    Or(a, PHYS_BASE)
  }

  function LowerHalf(a: nat): nat {
    And(a, 0xffff_ffff_ffff_ffff - PHYS_BASE)
  }

  function RemoveFlags(a: u64): nat {
    And(a, 0x000f_ffff_ffff_f000)
  }

  lemma Pow2Plus8(k: nat)
    ensures Pow2(k + 8) == 0x100 * Pow2(k)
  {
    assert Pow2(k + 4) == 16 * Pow2(k) by {
      assert Pow2(k + 2) == 4 * Pow2(k);
    }
    assert Pow2(k + 6) == 4 * Pow2(k + 4);
  }

  lemma Powers()
    ensures Pow2(1) == 2 && Pow2(12) == 0x1000
    ensures Pow2(40) == 0x100_0000_0000 && Pow2(47) == PHYS_LIMIT
  {
    assert Pow2(4) == 0x10 && Pow2(7) == 0x80 && Pow2(8) == 0x100;
    Pow2Plus8(4);
    Pow2Plus8(8); Pow2Plus8(16); Pow2Plus8(24); Pow2Plus8(32);
    Pow2Plus8(7); Pow2Plus8(15); Pow2Plus8(23); Pow2Plus8(31); Pow2Plus8(39);
  }

  lemma Powers64()
    ensures Pow2(64) == 0x1_0000_0000_0000_0000
  {
    Powers();
    Pow2Plus8(40); Pow2Plus8(48); Pow2Plus8(56);
  }

  lemma LowerHalfIsMod(a: nat)
    ensures LowerHalf(a) == a % PHYS_LIMIT
  {
    Powers();
    AndLowMask(a, 47);
  }

  lemma HigherHalfIsSum(a: u64)
    requires a < PHYS_LIMIT
    ensures HigherHalf(a) == PHYS_BASE + a
  {
    Powers();
    assert PHYS_BASE == 0x1_ffff * PHYS_LIMIT && PHYS_BASE % PHYS_LIMIT == 0;
    OrDisjoint(a, PHYS_BASE, 47);
  }

  /** An address and its higher-half alias name the same byte. */
  lemma AliasRoundTrip(a: u64)
    requires a < PHYS_LIMIT
    ensures HigherHalf(a) == 0xffff_8000_0000_0000 + a < 0x1_0000_0000_0000_0000
    ensures LowerHalf(HigherHalf(a)) == a == LowerHalf(a)
  {
    hide HigherHalf, LowerHalf;
    HigherHalfIsSum(a);
    LowerHalfIsMod(PHYS_BASE + a);
    LowerHalfIsMod(a);
    DivModUnique(PHYS_BASE + a, PHYS_LIMIT, 0x1_ffff, a);
  }

  lemma RemoveFlagsIsFrame(a: u64)
    ensures RemoveFlags(a) == a / 4096 % 0x100_0000_0000 * 4096
  {
    Powers();
    AndShift(a, 0xff_ffff_ffff, 12);
    AndLowMask(a / 4096, 40);
  }

  lemma OrFlags(frame: nat, flags: nat)
    requires flags < 4096
    ensures Or(frame * 4096, flags) == frame * 4096 + flags
  {
    Powers();
    OrDisjoint(flags, frame * 4096, 12);
  }

  /** Flags kept in the low twelve bits come off again, and the lowest of them stays readable. */
  lemma FlagsRoundTrip(frame: nat, flags: nat)
    requires frame < MAX_FRAMES && flags < 4096
    ensures Or(frame * 4096, flags) < 0x1_0000_0000_0000_0000
    ensures RemoveFlags(Or(frame * 4096, flags)) == frame * 4096
    ensures And(Or(frame * 4096, flags), 1) == flags % 2
  {
    OrFlags(frame, flags);
    var entry := frame * 4096 + flags;
    RemoveFlagsIsFrame(entry);
    assert entry / 4096 == frame;
    LowBit(entry);
  }

  lemma LowBit(x: nat)
    ensures And(x, 1) == x % 2
  {
    AndLowMask(x, 1);
  }
}

module PmmSpec {
  import opened Bits
  import opened Options
  import opened Sequences
  import opened PhysAddr

  /** `n` consecutive free pages start at `start`. */
  predicate RunAt(free: seq<bool>, start: nat, n: nat) {
    start + n <= |free| && forall i :: start <= i < start + n ==> free[i]
  }

  /** Reference search: try every start in turn. */
  function FirstFit(free: seq<bool>, n: nat, from: nat): (r: Option<nat>)
    ensures r.Some? ==> from <= r.value && RunAt(free, r.value, n)
    ensures r.Some? ==> forall s :: from <= s < r.value ==> !RunAt(free, s, n)
    ensures r.None? ==> forall s :: from <= s ==> !RunAt(free, s, n)
    decreases |free| - from
  {
    if from + n > |free| then None
    else if RunAt(free, from, n) then Some(from)
    else FirstFit(free, n, from + 1)
  }

  /** What `Pmm::alloc` finds: nothing for zero pages, else the first fit. */
  function Find(free: seq<bool>, pages: nat): (r: Option<nat>)
    ensures r.Some? ==> pages > 0 && RunAt(free, r.value, pages) && forall s :: 0 <= s < r.value ==> !RunAt(free, s, pages)
    ensures r.None? ==> pages == 0 || forall s :: 0 <= s ==> !RunAt(free, s, pages)
  {
    if pages == 0 then None else FirstFit(free, pages, 0)
  }

  // -------- runs of the allocator --------

  datatype Run = Run(start: nat, len: nat)

  predicate Covers(r: Run, page: nat) {
    r.start <= page < r.start + r.len
  }

  datatype Heap = Heap(free: seq<bool>, live: seq<Run>)

  /** A caller allocates, or gives back a live run through either of its addresses. */
  datatype Op = Alloc(pages: nat) | Free(handle: nat, higher: bool)

  function PageOf(ptr: nat): nat {
    LowerHalf(ptr) / PAGE_SIZE
  }

  function Pointer(r: Run, higher: bool): nat
    requires r.start < MAX_FRAMES
  {
    if higher then HigherHalf(r.start * PAGE_SIZE) else r.start * PAGE_SIZE
  }

  ghost predicate Bounded(h: Heap) {
    && |h.free| <= MAX_FRAMES
    && forall k :: 0 <= k < |h.live| ==> h.live[k].len > 0 && h.live[k].start + h.live[k].len <= |h.free|
  }

  function Step(h: Heap, op: Op): (h': Heap)
    requires Bounded(h)
  {
    match op
    case Alloc(n) => (
      match Find(h.free, n)
      case None => h
      case Some(p) => Heap(Fill(h.free, p, n, false), h.live + [Run(p, n)]))
    case Free(k, higher) =>
      if k >= |h.live| then h
      else
        var page := PageOf(Pointer(h.live[k], higher));
        Heap(Fill(h.free, page, h.live[k].len, true), h.live[..k] + h.live[k + 1..])
  }

  /** An allocation adds the lowest run of so many free pages to the live ones and takes exactly its pages; without one nothing changes. */
  lemma AllocDoes(h: Heap, n: nat)
    requires Bounded(h)
    ensures var h' := Step(h, Alloc(n));
      if n > 0 && exists s :: 0 <= s && RunAt(h.free, s, n) then
        exists p: nat :: RunAt(h.free, p, n) && (forall s :: 0 <= s < p ==> !RunAt(h.free, s, n))
          && h'.live == h.live + [Run(p, n)] && Without(h.free, h'.free, Run(p, n))
      else h' == h
  {
    var r := Find(h.free, n);
    if r.Some? {
      assert RunAt(h.free, r.value, n) && Without(h.free, Step(h, Alloc(n)).free, Run(r.value, n));
    }
  }

  /** Giving back a live run, through either of its addresses, makes exactly its pages free, and the run is live no more. */
  lemma FreeDoes(h: Heap, k: nat, higher: bool)
    requires Bounded(h)
    ensures var h' := Step(h, Free(k, higher));
      if k < |h.live| then
        && h'.live == h.live[..k] + h.live[k + 1..] && |h'.free| == |h.free|
        && forall page :: 0 <= page < |h.free| ==> (h'.free[page] <==> h.free[page] || Covers(h.live[k], page))
      else h' == h
  {
    if k < |h.live| {
      PointerPage(h.live[k], higher);
    }
  }

  predicate Without(free: seq<bool>, free': seq<bool>, r: Run) {
    |free'| == |free| && forall page :: 0 <= page < |free| ==> (free'[page] <==> free[page] && !Covers(r, page))
  }

  /** How many live runs hold `page`. */
  function Holders(live: seq<Run>, page: nat): nat {
    if live == [] then 0
    else Holders(live[..|live| - 1], page) + Digit(Covers(live[|live| - 1], page))
  }

  /** Every page of the initial free set is free or held by exactly one run; no other page is ever either. */
  ghost predicate Conserved(initial: seq<bool>, h: Heap) {
    && |h.free| == |initial|
    && Bounded(h)
    && forall i :: 0 <= i < |initial| ==> Digit(h.free[i]) + Holders(h.live, i) == Digit(initial[i])
  }

  lemma {:induction false} HoldersSplit(a: seq<Run>, b: seq<Run>, page: nat)
    ensures Holders(a + b, page) == Holders(a, page) + Holders(b, page)
  {
    if b == [] {
      assert a + b == a;
    } else {
      var n := |b| - 1;
      HoldersSplit(a, b[..n], page);
      assert (a + b)[..|a + b| - 1] == a + b[..n];
    }
  }

  lemma HoldersRemove(live: seq<Run>, k: nat, page: nat)
    requires k < |live|
    ensures Holders(live, page) == Holders(live[..k] + live[k + 1..], page) + Digit(Covers(live[k], page))
  {
    assert live == (live[..k] + [live[k]]) + live[k + 1..];
    HoldersSplit(live[..k] + [live[k]], live[k + 1..], page);
    HoldersSplit(live[..k], [live[k]], page);
    assert Holders([live[k]], page) == Holders([], page) + Digit(Covers(live[k], page));
    HoldersSplit(live[..k], live[k + 1..], page);
  }

  lemma PointerPage(r: Run, higher: bool)
    requires r.start < MAX_FRAMES
    ensures PageOf(Pointer(r, higher)) == r.start
  {
    AliasRoundTrip(r.start * PAGE_SIZE);
  }

  lemma AllocConserves(initial: seq<bool>, h: Heap, n: nat)
    requires Conserved(initial, h)
    ensures Conserved(initial, Step(h, Alloc(n)))
  {
    var p := Find(h.free, n);
    if p.Some? {
      var h' := Step(h, Alloc(n));
      forall i | 0 <= i < |initial|
        ensures Digit(h'.free[i]) + Holders(h'.live, i) == Digit(initial[i])
      {
        assert h'.live[..|h'.live| - 1] == h.live;
        assert Digit(h.free[i]) + Holders(h.live, i) == Digit(initial[i]);
      }
    }
  }

  lemma FreeConserves(initial: seq<bool>, h: Heap, k: nat, higher: bool)
    requires Conserved(initial, h)
    ensures Conserved(initial, Step(h, Free(k, higher)))
  {
    if k < |h.live| {
      var h' := Step(h, Free(k, higher));
      PointerPage(h.live[k], higher);
      forall i | 0 <= i < |initial|
        ensures Digit(h'.free[i]) + Holders(h'.live, i) == Digit(initial[i])
      {
        HoldersRemove(h.live, k, i);
        assert Digit(h.free[i]) + Holders(h.live, i) == Digit(initial[i]);
      }
    }
  }

  lemma StepConserves(initial: seq<bool>, h: Heap, op: Op)
    requires Conserved(initial, h)
    ensures Conserved(initial, Step(h, op))
  {
    match op
    case Alloc(n) => AllocConserves(initial, h, n);
    case Free(k, higher) => FreeConserves(initial, h, k, higher);
  }

  ghost function RunOps(initial: seq<bool>, h: Heap, ops: seq<Op>): (h': Heap)
    requires Conserved(initial, h)
    ensures Conserved(initial, h')
    decreases |ops|
  {
    if ops == [] then h
    else
      StepConserves(initial, h, ops[0]);
      RunOps(initial, Step(h, ops[0]), ops[1..])
  }

  /** A run followed by one more operation. */
  lemma {:induction false} RunOpsAppend(initial: seq<bool>, h: Heap, ops: seq<Op>, op: Op)
    requires Conserved(initial, h)
    ensures RunOps(initial, h, []) == h && RunOps(initial, h, ops + [op]) == Step(RunOps(initial, h, ops), op)
    decreases |ops|
  {
    hide Step, Holders;
    if ops == [] {
      assert ops + [op] == [op];
      assert [op][1..] == [];
      StepConserves(initial, h, op);
    } else {
      assert (ops + [op])[1..] == ops[1..] + [op];
      StepConserves(initial, h, ops[0]);
      RunOpsAppend(initial, Step(h, ops[0]), ops[1..], op);
    }
  }

  lemma {:induction false} HoldersAtLeastOne(live: seq<Run>, k: nat, page: nat)
    requires k < |live| && Covers(live[k], page)
    ensures Holders(live, page) >= 1
  {
    HoldersRemove(live, k, page);
  }

  lemma HoldersAtLeastTwo(live: seq<Run>, j: nat, k: nat, page: nat)
    requires j < k < |live| && Covers(live[j], page) && Covers(live[k], page)
    ensures Holders(live, page) >= 2
  {
    HoldersRemove(live, k, page);
    var rest := live[..k] + live[k + 1..];
    assert rest[j] == live[j];
    HoldersRemove(rest, j, page);
  }

  lemma {:induction false} HolderExists(live: seq<Run>, page: nat)
    requires Holders(live, page) >= 1
    ensures exists k :: 0 <= k < |live| && Covers(live[k], page)
  {
    var n := |live| - 1;
    if !Covers(live[n], page) {
      HolderExists(live[..n], page);
      var k :| 0 <= k < n && Covers(live[..n][k], page);
      assert Covers(live[k], page);
    }
  }

  ghost predicate Disjoint(live: seq<Run>) {
    forall j, k :: 0 <= j < k < |live| ==>
      live[j].start + live[j].len <= live[k].start || live[k].start + live[k].len <= live[j].start
  }

  ghost predicate Held(live: seq<Run>, page: nat) {
    exists k :: 0 <= k < |live| && Covers(live[k], page)
  }

  lemma ConservedDisjoint(initial: seq<bool>, h: Heap)
    requires Conserved(initial, h)
    ensures Disjoint(h.live)
  {
    forall j, k | 0 <= j < k < |h.live|
      ensures h.live[j].start + h.live[j].len <= h.live[k].start || h.live[k].start + h.live[k].len <= h.live[j].start
    {
      var page := if h.live[j].start <= h.live[k].start then h.live[k].start else h.live[j].start;
      if Covers(h.live[j], page) && Covers(h.live[k], page) {
        HoldersAtLeastTwo(h.live, j, k, page);
        assert false;
      }
    }
  }

  lemma ConservedPage(initial: seq<bool>, h: Heap, page: nat)
    requires Conserved(initial, h) && page < |initial|
    ensures initial[page] <==> (h.free[page] || Held(h.live, page))
    ensures !(h.free[page] && Held(h.live, page))
  {
    assert Digit(h.free[page]) + Holders(h.live, page) == Digit(initial[page]);
    if Holders(h.live, page) >= 1 {
      HolderExists(h.live, page);
    } else if Held(h.live, page) {
      var k :| 0 <= k < |h.live| && Covers(h.live[k], page);
      HoldersAtLeastOne(h.live, k, page);
      assert false;
    }
  }

  /**
    Whole-run conservation: after any sequence of allocations and frees of live runs,
    live runs are pairwise disjoint, none holds a free page, and together with the free
    pages they make up exactly the pages that were free at the start.
   */
  lemma Conservation(initial: seq<bool>, ops: seq<Op>)
    requires |initial| <= MAX_FRAMES
    ensures var h := RunOps(initial, Heap(initial, []), ops);
      && Disjoint(h.live)
      && |h.free| == |initial|
      && (forall page :: 0 <= page < |initial| ==> (initial[page] <==> (h.free[page] || Held(h.live, page))))
      && (forall page :: 0 <= page < |initial| ==> !(h.free[page] && Held(h.live, page)))
  {
    var h := RunOps(initial, Heap(initial, []), ops);
    ConservedDisjoint(initial, h);
    forall page | 0 <= page < |initial|
      ensures initial[page] <==> (h.free[page] || Held(h.live, page))
      ensures !(h.free[page] && Held(h.live, page))
    {
      ConservedPage(initial, h, page);
    }
  }
}

module Pmms {
  import opened Bits
  import opened Bitmaps
  import opened Options
  import opened Sequences
  import opened PhysAddr
  import opened PmmSpec

  class Pmm {
    const bitmap: Bitmap

    ghost predicate Valid()
      reads bitmap.data
    {
      |bitmap.Contents()| <= MAX_FRAMES
    }

    ghost function Free(): (r: seq<bool>)
      reads bitmap.data
    {
      bitmap.Contents()
    }

    constructor (bitmap: Bitmap)
      ensures this.bitmap == bitmap
    {
      this.bitmap := bitmap;
    }

    method Alloc(pages: nat) returns (r: Option<u64>)
      requires Valid()
      modifies bitmap.data
      ensures Valid()
      ensures match Find(old(Free()), pages)
              case None => r == None && Free() == old(Free())
              case Some(p) => r == Some(p * PAGE_SIZE) && Free() == Fill(old(Free()), p, pages, false)
      ensures forall live: seq<Run> :: Bounded(Heap(old(Free()), live)) ==> Step(Heap(old(Free()), live), Op.Alloc(pages)).free == Free()
    {
      var count := 0;
      for i := 0 to bitmap.Size() * 8
        invariant Free() == old(Free())
        invariant 0 <= count <= i && (pages > 0 ==> count < pages)
        invariant RunAt(Free(), i - count, count)
        invariant count < i ==> !Free()[i - count - 1]
        invariant pages > 0 ==> forall s :: 0 <= s && s + pages <= i ==> !RunAt(Free(), s, pages)
      {
        if bitmap.IsSet(i) {
          count := count + 1;
          if count == pages {
            var page := i - pages + 1;
            assert RunAt(Free(), page, pages);
            FirstRun(Free(), pages, page);
            for p := page to page + pages
              invariant Free() == Fill(old(Free()), page, p - page, false)
            {
              bitmap.Clear(p);
            }
            return Some(page * PAGE_SIZE);
          }
        } else {
          count := 0;
        }
      }
      return None;
    }

    method Calloc(pages: nat, memory: array<u64>) returns (r: Option<u64>)
      requires Valid()
      requires bitmap.data as object != memory
      requires forall i :: 0 <= i < |Free()| && Free()[i] ==> (i + 1) * 512 <= memory.Length
      modifies bitmap.data, memory
      ensures Valid()
      ensures match Find(old(Free()), pages)
              case None => r == None && Free() == old(Free()) && memory[..] == old(memory[..])
              case Some(p) =>
                && r == Some(p * PAGE_SIZE)
                && Free() == Fill(old(Free()), p, pages, false)
                && memory[..] == Fill(old(memory[..]), p * 512, pages * 512, 0)
    {
      r := Alloc(pages);
      if r.Some? {
        assert old(Free())[r.value / PAGE_SIZE + pages - 1];
        for w := r.value / 8 to r.value / 8 + pages * 512
          modifies memory
          invariant memory[..] == Fill(old(memory[..]), r.value / 8, w - r.value / 8, 0)
        {
          memory[w] := 0;
        }
      }
    }

    method Release(ptr: u64, pages: nat)
      requires Valid()
      requires PageOf(ptr) + pages <= |Free()|
      modifies bitmap.data
      ensures Valid()
      ensures Free() == Fill(old(Free()), PageOf(ptr), pages, true)
      ensures forall live: seq<Run>, k: nat, higher ::
        Bounded(Heap(old(Free()), live)) && k < |live| && live[k].len == pages && Pointer(live[k], higher) == ptr ==>
          Step(Heap(old(Free()), live), Op.Free(k, higher)).free == Free()
    {
      var page := LowerHalf(ptr) / PAGE_SIZE;
      for i := page to page + pages
        invariant Free() == Fill(old(Free()), page, i - page, true)
      {
        bitmap.Set(i);
      }
    }
  }

  lemma FirstRun(free: seq<bool>, pages: nat, page: nat)
    requires pages > 0 && RunAt(free, page, pages)
    requires forall s :: 0 <= s < page ==> !RunAt(free, s, pages)
    ensures Find(free, pages) == Some(page)
  {
  }
}
