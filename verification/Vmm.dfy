/** `VirtualMemManager` of src/mm/vmm.rs, working in place on physical memory. */
module Vmm {
  import opened Bits
  import opened Options
  import opened Sequences
  import opened PhysAddr
  import opened Pmms
  import opened PageTables
  import opened AddressSpaces

  /** Index of the word that a `*mut u64` names after `.offset(i)`; both aliases of memory work. */
  function WordAt(ptr: nat, i: nat): nat {
    LowerHalf(ptr) / 8 + i
  }

  /** `ptr` is the physical address of frame `f` or its higher-half alias. */
  ghost predicate PointsTo(ptr: nat, f: nat) {
    f < MAX_FRAMES && (ptr == f * PAGE_SIZE || ptr == HigherHalf(f * PAGE_SIZE))
  }

  lemma WordOfFrame(ptr: nat, f: nat, i: nat)
    requires PointsTo(ptr, f)
    ensures WordAt(ptr, i) == f * 512 + i
  {
    AliasRoundTrip(f * PAGE_SIZE);
  }

  /** The machine: physical memory as 64-bit words, and the page allocator over it. */
  class Machine {
    const memory: array<u64>
    const pmm: Pmm

    constructor (memory: array<u64>, pmm: Pmm)
      ensures this.memory == memory && this.pmm == pmm
    {
      this.memory := memory;
      this.pmm := pmm;
    }

    ghost function State(): (s: Sys)
      reads memory, pmm.bitmap.data
    {
      Sys(memory[..], pmm.Free())
    }

    ghost predicate Valid()
      reads memory, pmm.bitmap.data
    {
      memory as object != pmm.bitmap.data && FreeOk(State())
    }

    method Load(ptr: nat, i: nat, ghost f: nat) returns (v: u64)
      requires PointsTo(ptr, f) && (f + 1) * 512 <= memory.Length && i < 512
      ensures v == Entry(State().mem, f, i)
    {
      WordOfFrame(ptr, f, i);
      v := memory[WordAt(ptr, i)];
    }

    method Store(ptr: nat, i: nat, v: u64, ghost f: nat)
      requires Valid() && PointsTo(ptr, f) && (f + 1) * 512 <= memory.Length && i < 512
      modifies memory
      ensures Valid()
      ensures State() == old(State()).(mem := Put(old(State()).mem, f, i, v))
    {
      WordOfFrame(ptr, f, i);
      memory[WordAt(ptr, i)] := v;
      assert memory[..] == Put(old(memory[..]), f, i, v);
    }

    method CallocFrame() returns (r: Option<u64>)
      requires Valid()
      modifies memory, pmm.bitmap.data
      ensures Valid()
      ensures match PageTables.Calloc(old(State()))
              case None => r == None && State() == old(State())
              case Some((s', g)) => r == Some(g * PAGE_SIZE) && State() == s' && (g + 1) * 512 <= memory.Length
    {
      r := pmm.Calloc(1, memory);
    }
  }

  /** One more step of a walk, and the table it starts from. */
  lemma WalkStep(s: Sys, roots: seq<nat>, t: nat, d: seq<nat>, k: nat)
    requires Inv(s, roots) && t < |roots| && ValidPath(d) && k <= |d|
    requires Walk(s, roots[t], d[..k]).Some?
    ensures var (s', f) := Walk(s, roots[t], d[..k]).value;
      && Inv(s', roots) && TableOk(s', f)
      && (k < |d| ==> Walk(s, roots[t], d[..k + 1]) == NextLevel(s', f, d[k]))
  {
    var (s', f) := Walk(s, roots[t], d[..k]).value;
    assert ValidPath(d[..k]);
    if k > 0 {
      WalkKeeps(s, roots, t, d[..k]);
    }
    assert TableOkAt(s', roots, t, d[..k]);
    if k < |d| {
      assert Front(d[..k + 1]) == d[..k];
    }
  }

  lemma NextLevelStores(s: Sys, f: nat, i: nat)
    requires FreeOk(s) && TableOk(s, f) && i < 512
    ensures NextLevel(s, f, i).Some? && Entry(s.mem, f, i) % 2 == 0 ==>
      var (s', g) := NextLevel(s, f, i).value; Entry(s'.mem, f, i) == g * PAGE_SIZE + 7
  {
    hide NextLevel;
    if NextLevel(s, f, i).Some? {
      NextLevelWords(s, f, i, f, i);
    }
  }

  lemma EntryForPage(frame: nat)
    requires frame < MAX_FRAMES
    ensures Or(frame * PAGE_SIZE, TABLE_FLAGS) == TableEntry(frame)
  {
  }

  lemma FrameAligned(entry: u64)
    ensures RemoveFlags(entry) == RemoveFlags(entry) / PAGE_SIZE * PAGE_SIZE < 0x1_0000_0000_0000_0000
  {
    RemoveFlagsIsFrame(entry);
  }

  class VirtualMemManager {
    const machine: Machine
    var pagemap: u64

    constructor (machine: Machine, pagemap: u64)
      ensures this.machine == machine && this.pagemap == pagemap
    {
      this.machine := machine;
      this.pagemap := pagemap;
    }

    /** `None` is the panic on exhausted memory. */
    method GetNextLevel(curr: u64, index: nat, ghost f: nat) returns (r: Option<u64>)
      requires machine.Valid()
      requires curr == f * PAGE_SIZE && TableOk(machine.State(), f) && index < 512
      modifies machine.memory, machine.pmm.bitmap.data
      ensures machine.Valid()
      ensures match NextLevel(old(machine.State()), f, index)
              case None => r == None && machine.State() == old(machine.State())
              case Some((s', g)) => r == Some(g * PAGE_SIZE) && machine.State() == s'
      ensures r.Some? && Entry(old(machine.State()).mem, f, index) % 2 == 0 ==> Entry(machine.State().mem, f, index) == r.value + 7
    {
      NextLevelStores(machine.State(), f, index);
      var level := HigherHalf(curr);
      var entry := machine.Load(level, index, f);
      if And(entry, 1) == 0 {
        var page := machine.CallocFrame();
        if page == None {
          return None;
        }
        EntryForPage(page.value / PAGE_SIZE);
        machine.Store(level, index, Or(page.value, TABLE_FLAGS), f);
        return page;
      }
      FrameAligned(entry);
      return Some(RemoveFlags(entry));
    }

    ghost predicate Holds(roots: seq<nat>, t: nat)
      reads this, machine.memory, machine.pmm.bitmap.data
    {
      machine.Valid() && Inv(machine.State(), roots) && t < |roots| && pagemap == roots[t] * PAGE_SIZE
    }

    /** The three table steps shared by `map_page` and `get_mapping`. */
    method Descend(virtualAddr: u64, ghost roots: seq<nat>, ghost t: nat) returns (r: Option<u64>)
      requires Holds(roots, t)
      modifies machine.memory, machine.pmm.bitmap.data
      ensures machine.Valid()
      ensures match Walk(old(machine.State()), roots[t], Dir(PageNo(virtualAddr)))
              case None => r == None
              case Some((s', f)) =>
                r == Some(f * PAGE_SIZE) && machine.State() == s' && TableOk(s', f)
    {
      IndicesOfPage(virtualAddr);
      ghost var s0, root, d := machine.State(), roots[t], Dir(PageNo(virtualAddr));
      assert d[..3] == d && d[0] == Pml4(virtualAddr) && d[1] == Pdp(virtualAddr) && d[2] == Pd(virtualAddr);
      WalkStep(s0, roots, t, d, 0);
      var pdp := GetNextLevel(pagemap, Pml4(virtualAddr), root);
      if pdp == None {
        WalkStops(s0, root, d, 1);
        return None;
      }
      WalkStep(s0, roots, t, d, 1);
      var pd := GetNextLevel(pdp.value, Pdp(virtualAddr), Walk(s0, root, d[..1]).value.1);
      if pd == None {
        WalkStops(s0, root, d, 2);
        return None;
      }
      WalkStep(s0, roots, t, d, 2);
      r := GetNextLevel(pd.value, Pd(virtualAddr), Walk(s0, root, d[..2]).value.1);
      if r.Some? {
        WalkStep(s0, roots, t, d, 3);
      }
    }

    method MapPage(virtualAddr: u64, physAddr: u64, flags: u64, ghost roots: seq<nat>, ghost t: nat) returns (ok: bool)
      requires Holds(roots, t)
      modifies machine.memory, machine.pmm.bitmap.data
      ensures match Step(Vm(old(machine.State()), roots), Map(t, virtualAddr, physAddr, flags))
              case None => !ok
              case Some((vm', _)) => ok && machine.State() == vm'.s && Holds(roots, t)
    {
      hide TablesOk, OnePath, Walk, Or, HigherHalf, PageNo, Dir, Leaf, Pt;
      ghost var vm := Vm(machine.State(), roots);
      var pageTable := Descend(virtualAddr, roots, t);
      if pageTable == None {
        return false;
      }
      IndicesOfPage(virtualAddr);
      machine.Store(pageTable.value, Pt(virtualAddr), OrWord(physAddr, flags), pageTable.value / PAGE_SIZE);
      StepKeepsInv(vm, Map(t, virtualAddr, physAddr, flags));
      return true;
    }

    method GetMapping(virtualAddr: u64, ghost roots: seq<nat>, ghost t: nat) returns (r: Option<u64>)
      requires Holds(roots, t)
      modifies machine.memory, machine.pmm.bitmap.data
      ensures match Step(Vm(old(machine.State()), roots), Get(t, virtualAddr))
              case None => r == None
              case Some((vm', e)) => r == Some(e) && machine.State() == vm'.s && Holds(roots, t)
    {
      hide TablesOk, OnePath, Walk, Or, HigherHalf, PageNo, Dir, Leaf, Pt;
      ghost var vm := Vm(machine.State(), roots);
      var pageTable := Descend(virtualAddr, roots, t);
      if pageTable == None {
        return None;
      }
      IndicesOfPage(virtualAddr);
      var entry := machine.Load(pageTable.value, Pt(virtualAddr), pageTable.value / PAGE_SIZE);
      StepKeepsInv(vm, Get(t, virtualAddr));
      return Some(entry);
    }
  }

  lemma {:induction false} WalkStops(s: Sys, root: nat, d: seq<nat>, k: nat)
    requires |s.free| <= MAX_FRAMES && k <= |d| && Walk(s, root, d[..k]) == None
    ensures Walk(s, root, d) == None
    decreases |d|
  {
    if k == |d| {
      assert d[..k] == d;
    } else {
      assert Front(d)[..k] == d[..k];
      WalkStops(s, root, Front(d), k);
    }
  }

  /** `VirtualMemManager::new(true)`. */
  method NewUser(kernel: VirtualMemManager, ghost roots: seq<nat>) returns (r: Option<VirtualMemManager>)
    requires kernel.Holds(roots, 0)
    modifies kernel.machine.memory, kernel.machine.pmm.bitmap.data
    ensures match Step(Vm(old(kernel.machine.State()), roots), New)
            case None => r == None
            case Some((vm', _)) =>
              && r.Some? && r.value.machine == kernel.machine
              && kernel.machine.State() == vm'.s
              && r.value.Holds(vm'.roots, |roots|) && kernel.Holds(vm'.roots, 0)
  {
    ghost var s0, k := kernel.machine.State(), roots[0];
    assert TableOkAt(s0, roots, 0, []);
    var pml4 := kernel.machine.CallocFrame();
    if pml4 == None {
      return None;
    }
    ghost var g := pml4.value / PAGE_SIZE;
    var pml4Ptr := HigherHalf(pml4.value);
    var entry := kernel.machine.Load(kernel.pagemap, 256, k);
    kernel.machine.Store(pml4Ptr, 256, entry, g);
    entry := kernel.machine.Load(kernel.pagemap, 511, k);
    kernel.machine.Store(pml4Ptr, 511, entry, g);
    StepKeepsInv(Vm(s0, roots), New);
    var vmm := new VirtualMemManager(kernel.machine, pml4.value);
    return Some(vmm);
  }
}
