/**
  Page tables and other users of the page allocator side by side: `map_page`,
  `get_mapping` and `VirtualMemManager::new` (src/mm/vmm.rs) interleaved with allocations,
  frees and stores by clients of src/arch/x86_64/mm/pmm.rs.
 */
module SharedMemory {
  import opened Bits
  import opened Options
  import opened Sequences
  import opened PhysAddr
  import opened PmmSpec
  import opened SlabSpec
  import opened PageTables
  import AddressSpaces

  type Vm = AddressSpaces.Vm

  // -------- when memory runs out --------

  ghost function FreeFrames(s: Sys): nat {
    CountSet(s.free, |s.free|)
  }

  /** How many of the tables along a path are not there yet. */
  ghost function Missing(m: seq<u64>, root: nat, path: seq<nat>): nat
    decreases |path|
  {
    if path == [] then 0 else Missing(m, root, Front(path)) + (if TableAt(m, root, path).None? then 1 else 0)
  }

  lemma {:induction false} NoneSet(bits: seq<bool>, n: nat)
    requires n <= |bits|
    ensures CountSet(bits, n) == 0 <==> forall j :: 0 <= j < n ==> !bits[j]
  {
    if n > 0 {
      NoneSet(bits, n - 1);
    }
  }

  lemma CallocCost(s: Sys)
    ensures Calloc(s).Some? <==> FreeFrames(s) > 0
    ensures Calloc(s).Some? ==> FreeFrames(Calloc(s).value.0) == FreeFrames(s) - 1
  {
    NoneSet(s.free, |s.free|);
    match Find(s.free, 1)
    case None =>
      forall j | 0 <= j < |s.free| ensures !s.free[j] {
        assert !RunAt(s.free, j, 1);
      }
    case Some(g) =>
      assert RunAt(s.free, g, 1);
      CountSetUpdate(s.free, |s.free|, g, false);
      assert Fill(s.free, g, 1, false) == s.free[g := false];
  }

  /** A table added along `p` leaves every longer path of the same space as it was. */
  lemma LongerSame(s: Sys, roots: seq<nat>, t: nat, p: seq<nat>, f: nat, i: nat, q: seq<nat>)
    requires Inv(s, roots) && t < |roots| && ValidPath(p) && |p| <= 2 && i < 512 && TableAt(s.mem, roots[t], p) == Some(f)
    requires NextLevel(s, f, i).Some? && ValidPath(q) && |q| > |p| + 1
    ensures TableAt(NextLevel(s, f, i).value.0.mem, roots[t], q) == TableAt(s.mem, roots[t], q)
  {
    if !Present(Entry(s.mem, f, i)) {
      var (s', g) := NextLevel(s, f, i).value;
      TableAtAfter(Graft(s, s', roots, t, p, f, i, g), t, q);
      FrontValid(q);
      assert OnePathAt(s, roots, t, p, t, Front(q));
    }
  }

  lemma {:induction false} WalkLongerSame(s: Sys, roots: seq<nat>, t: nat, path: seq<nat>, q: seq<nat>)
    requires Inv(s, roots) && t < |roots| && ValidPath(path) && Walk(s, roots[t], path).Some? && ValidPath(q) && |q| > |path|
    ensures TableAt(Walk(s, roots[t], path).value.0.mem, roots[t], q) == TableAt(s.mem, roots[t], q)
    decreases |path|
  {
    if path != [] {
      var p := Front(path);
      FrontValid(path);
      WalkLongerSame(s, roots, t, p, q);
      var (s1, f) := Walk(s, roots[t], p).value;
      if p != [] {
        WalkKeeps(s, roots, t, p);
      }
      LongerSame(s1, roots, t, p, f, Last(path), q);
    }
  }

  /** A walk succeeds exactly when the missing tables can all be allocated, and takes one frame for each. */
  lemma {:induction false} WalkCost(s: Sys, roots: seq<nat>, t: nat, path: seq<nat>)
    requires Inv(s, roots) && t < |roots| && ValidPath(path)
    ensures Walk(s, roots[t], path).Some? <==> FreeFrames(s) >= Missing(s.mem, roots[t], path)
    ensures Walk(s, roots[t], path).Some? ==>
      FreeFrames(Walk(s, roots[t], path).value.0) == FreeFrames(s) - Missing(s.mem, roots[t], path)
    decreases |path|
  {
    hide FreeFrames, TablesOk, OnePath;
    if path != [] {
      var p := Front(path);
      FrontValid(path);
      WalkCost(s, roots, t, p);
      if Walk(s, roots[t], p).Some? {
        WalkLongerSame(s, roots, t, p, path);
        var (s1, f) := Walk(s, roots[t], p).value;
        WalkFinds(s, roots, t, p);
        CallocCost(s1);
        LevelCost(s1, f, Last(path));
      }
    }
  }

  lemma WalkFinds(s: Sys, roots: seq<nat>, t: nat, path: seq<nat>)
    requires Inv(s, roots) && t < |roots| && ValidPath(path) && Walk(s, roots[t], path).Some?
    ensures TableAt(Walk(s, roots[t], path).value.0.mem, roots[t], path) == Some(Walk(s, roots[t], path).value.1)
  {
    if path != [] {
      WalkKeeps(s, roots, t, path);
    }
  }

  lemma LevelCost(s: Sys, f: nat, i: nat)
    requires |s.free| <= MAX_FRAMES
    ensures NextLevel(s, f, i).Some? <==> Present(Entry(s.mem, f, i)) || FreeFrames(s) > 0
    ensures NextLevel(s, f, i).Some? ==>
      FreeFrames(NextLevel(s, f, i).value.0) == FreeFrames(s) - (if Present(Entry(s.mem, f, i)) then 0 else 1)
  {
    CallocCost(s);
  }

  /** Frames an operation needs. */
  ghost function Cost(vm: Vm, op: AddressSpaces.Op): nat {
    match op
    case Map(t, v, _, _) => if t < |vm.roots| then Missing(vm.s.mem, vm.roots[t], Dir(PageNo(v))) else 0
    case Get(t, v) => if t < |vm.roots| then Missing(vm.s.mem, vm.roots[t], Dir(PageNo(v))) else 0
    case New => 1
  }

  /** `map_page`, `get_mapping` and `new` panic exactly when fewer frames are free than tables are missing. */
  lemma PanicIff(vm: Vm, op: AddressSpaces.Op)
    requires Inv(vm.s, vm.roots)
    ensures AddressSpaces.Step(vm, op).None? <==> FreeFrames(vm.s) < Cost(vm, op)
    ensures AddressSpaces.Step(vm, op).Some? ==> FreeFrames(AddressSpaces.Step(vm, op).value.0.s) == FreeFrames(vm.s) - Cost(vm, op)
  {
    match op
    case Map(t, v, _, _) =>
      if t < |vm.roots| {
        WalkCost(vm.s, vm.roots, t, Dir(PageNo(v)));
      }
    case Get(t, v) =>
      if t < |vm.roots| {
        WalkCost(vm.s, vm.roots, t, Dir(PageNo(v)));
      }
    case New => CallocCost(vm.s);
  }

  // -------- frames that are neither free nor tables --------

  ghost predicate NotTable(m: seq<u64>, roots: seq<nat>, h: nat) {
    forall t, p :: 0 <= t < |roots| && ValidPath(p) ==> TableAt(m, roots[t], p) != Some(h)
  }

  ghost predicate Outside(s: Sys, roots: seq<nat>, h: nat) {
    !(h < |s.free| && s.free[h]) && NotTable(s.mem, roots, h)
  }

  /** Frame `h` stays outside, with the same words. */
  ghost predicate Spared(s: Sys, roots: seq<nat>, s': Sys, roots': seq<nat>, h: nat) {
    && |s'.mem| == |s.mem| && |s'.free| == |s.free| && Outside(s', roots', h)
    && forall j :: 0 <= j < 512 ==> Entry(s'.mem, h, j) == Entry(s.mem, h, j)
  }

  lemma LevelSpares(s: Sys, roots: seq<nat>, t: nat, p: seq<nat>, f: nat, i: nat, h: nat)
    requires Inv(s, roots) && t < |roots| && ValidPath(p) && |p| <= 2 && i < 512 && TableAt(s.mem, roots[t], p) == Some(f)
    requires NextLevel(s, f, i).Some? && Outside(s, roots, h)
    ensures Spared(s, roots, NextLevel(s, f, i).value.0, roots, h)
  {
    if !Present(Entry(s.mem, f, i)) {
      var (s', g) := NextLevel(s, f, i).value;
      var a := Graft(s, s', roots, t, p, f, i, g);
      forall u, q | 0 <= u < |roots| && ValidPath(q) ensures TableAt(s'.mem, roots[u], q) != Some(h) {
        TableAtAfter(a, u, q);
      }
      forall j | 0 <= j < 512 ensures Entry(s'.mem, h, j) == Entry(s.mem, h, j) {
        EntryAfter(a, h, j);
      }
    }
  }

  lemma {:induction false} WalkSpares(s: Sys, roots: seq<nat>, t: nat, path: seq<nat>, h: nat)
    requires Inv(s, roots) && t < |roots| && ValidPath(path) && Walk(s, roots[t], path).Some? && Outside(s, roots, h)
    ensures Spared(s, roots, Walk(s, roots[t], path).value.0, roots, h)
    decreases |path|
  {
    hide NotTable;
    if path != [] {
      var p := Front(path);
      FrontValid(path);
      WalkSpares(s, roots, t, p, h);
      var (s1, f) := Walk(s, roots[t], p).value;
      WalkFinds(s, roots, t, p);
      if p != [] {
        WalkKeeps(s, roots, t, p);
      }
      LevelSpares(s1, roots, t, p, f, Last(path), h);
    }
  }

  lemma LeafSpares(w: AddressSpaces.LeafWrite, h: nat)
    requires AddressSpaces.LeafOk(w) && Outside(w.s, w.roots, h)
    ensures Spared(w.s, w.roots, AddressSpaces.After(w), w.roots, h)
  {
    assert TableOkAt(w.s, w.roots, w.t, w.d);
    forall u, q | 0 <= u < |w.roots| && ValidPath(q) ensures TableAt(AddressSpaces.After(w).mem, w.roots[u], q) != Some(h) {
      AddressSpaces.LeafKeepsTable(w, u, q);
    }
    forall j | 0 <= j < 512 ensures Entry(AddressSpaces.After(w).mem, h, j) == Entry(w.s.mem, h, j) {
      EntryOfPut(w.s.mem, w.f, w.i, w.v, h, j);
    }
  }

  lemma BirthSpares(b: AddressSpaces.Birth, h: nat)
    requires AddressSpaces.Born(b) && Outside(b.s, b.roots, h)
    ensures Spared(b.s, b.roots, b.s', b.roots + [b.g], h)
  {
    var roots := b.roots + [b.g];
    forall u, q | 0 <= u < |roots| && ValidPath(q) ensures TableAt(b.s'.mem, roots[u], q) != Some(h) {
      if u < |b.roots| {
        AddressSpaces.BirthOldTable(b, u, q);
      } else if q != [] {
        AddressSpaces.BirthNewTable(b, q);
      }
    }
    forall j | 0 <= j < 512 ensures Entry(b.s'.mem, h, j) == Entry(b.s.mem, h, j) {
      AddressSpaces.BirthEntry(b, h, j);
    }
  }

  /** No operation on page tables touches a frame that is neither free nor a table. */
  lemma StepSpares(vm: Vm, op: AddressSpaces.Op, h: nat)
    requires Inv(vm.s, vm.roots) && AddressSpaces.Step(vm, op).Some? && Outside(vm.s, vm.roots, h)
    ensures var vm' := AddressSpaces.Step(vm, op).value.0; Spared(vm.s, vm.roots, vm'.s, vm'.roots, h)
  {
    hide NotTable;
    match op
    case Map(t, v, p, f) =>
      if t < |vm.roots| {
        var n := PageNo(v);
        WalkSpares(vm.s, vm.roots, t, Dir(n), h);
        WalkKeeps(vm.s, vm.roots, t, Dir(n));
        var (s1, frame) := Walk(vm.s, vm.roots[t], Dir(n)).value;
        LeafSpares(AddressSpaces.LeafWrite(s1, vm.roots, t, Dir(n), frame, Leaf(n), AddressSpaces.OrWord(p, f)), h);
      }
    case Get(t, v) =>
      if t < |vm.roots| {
        WalkSpares(vm.s, vm.roots, t, Dir(PageNo(v)), h);
      }
    case New =>
      var (s', g) := NewSpace(vm.s, vm.roots[0]).value;
      BirthSpares(AddressSpaces.Birth(vm.s, s', vm.roots, g), h);
  }

  // -------- changes from outside --------

  /** `s'` differs from `s` in words of frames that are no tables, and in which of those are free. */
  ghost predicate Foreign(s: Sys, roots: seq<nat>, s': Sys) {
    && |s'.mem| == |s.mem| && |s'.free| == |s.free|
    && (forall h: nat, j :: 0 <= j < 512 && !NotTable(s.mem, roots, h) ==> Entry(s'.mem, h, j) == Entry(s.mem, h, j))
    && (forall h :: 0 <= h < |s'.free| && s'.free[h] ==> NotTable(s.mem, roots, h) && (h + 1) * 512 <= |s.mem|)
  }

  lemma {:induction false} ForeignTable(s: Sys, roots: seq<nat>, s': Sys, t: nat, path: seq<nat>)
    requires Foreign(s, roots, s') && t < |roots| && ValidPath(path)
    ensures TableAt(s'.mem, roots[t], path) == TableAt(s.mem, roots[t], path)
    decreases |path|
  {
    if path != [] {
      FrontValid(path);
      ForeignTable(s, roots, s', t, Front(path));
      if TableAt(s.mem, roots[t], Front(path)).Some? {
        var h := TableAt(s.mem, roots[t], Front(path)).value;
        assert !NotTable(s.mem, roots, h);
      }
    }
  }

  lemma ForeignInv(s: Sys, roots: seq<nat>, s': Sys)
    requires Inv(s, roots) && Foreign(s, roots, s')
    ensures Inv(s', roots)
  {
    forall u, q: seq<nat> | 0 <= u < |roots| ensures TableOkAt(s', roots, u, q) {
      if ValidPath(q) {
        ForeignTable(s, roots, s', u, q);
        assert TableOkAt(s, roots, u, q);
      }
    }
    forall u, q: seq<nat>, u', q': seq<nat> | 0 <= u < |roots| && 0 <= u' < |roots| ensures OnePathAt(s', roots, u, q, u', q') {
      if ValidPath(q) && ValidPath(q') {
        ForeignTable(s, roots, s', u, q);
        ForeignTable(s, roots, s', u', q');
        ForeignOwner(s, roots, s', u, q);
        ForeignOwner(s, roots, s', u', q');
        assert OnePathAt(s, roots, u, q, u', q');
      }
    }
  }

  lemma ForeignOwner(s: Sys, roots: seq<nat>, s': Sys, t: nat, path: seq<nat>)
    requires Foreign(s, roots, s') && t < |roots| && ValidPath(path)
    ensures Owner(s'.mem, roots, t, path) == Owner(s.mem, roots, t, path)
    ensures path != [] ==> Linked(s'.mem, roots, t, path[0]) == Linked(s.mem, roots, t, path[0])
  {
    if path != [] {
      ForeignTable(s, roots, s', t, [path[0]]);
      ForeignTable(s, roots, s', 0, [path[0]]);
    }
  }

  lemma ForeignFlat(s: Sys, roots: seq<nat>, s': Sys, t: nat, n: nat)
    requires Foreign(s, roots, s') && t < |roots| && n < PAGES
    ensures Flat(s'.mem, roots[t], n) == Flat(s.mem, roots[t], n)
  {
    ForeignTable(s, roots, s', t, Dir(n));
    if TableAt(s.mem, roots[t], Dir(n)).Some? {
      assert !NotTable(s.mem, roots, TableAt(s.mem, roots[t], Dir(n)).value);
    }
  }

  /** The flat machine does not notice. */
  lemma ForeignRefines(vm: Vm, r: AddressSpaces.Flats, s': Sys)
    requires AddressSpaces.Refines(vm, r) && Foreign(vm.s, vm.roots, s')
    ensures AddressSpaces.Refines(AddressSpaces.Vm(s', vm.roots), r)
  {
    ForeignInv(vm.s, vm.roots, s');
    forall t, n | 0 <= t < |vm.roots| && 0 <= n < PAGES
      ensures AddressSpaces.Read(r, t, n) == Flat(s'.mem, vm.roots[t], n)
    {
      ForeignFlat(vm.s, vm.roots, s', t, n);
    }
    forall t, i | 0 <= t < |vm.roots| && 0 <= i < 512
      ensures Linked(s'.mem, vm.roots, t, i) == Linked(vm.s.mem, vm.roots, t, i)
      ensures TableAt(s'.mem, vm.roots[t], [i]) == TableAt(vm.s.mem, vm.roots[t], [i])
    {
      ForeignOwner(vm.s, vm.roots, s', t, [i]);
      ForeignTable(vm.s, vm.roots, s', t, [i]);
    }
  }

  // -------- clients of the page allocator --------

  /** The page tables, and the runs of pages that clients hold. */
  datatype Kernel = Kernel(vm: Vm, live: set<Run>)

  datatype Event =
    | Tables(op: AddressSpaces.Op)
    | Grab(pages: nat)
    | GiveBack(run: Run, higher: bool)
    | Store(run: Run, word: nat, v: u64)

  ghost predicate RunOk(k: Kernel, x: Run) {
    && x.len > 0 && x.start + x.len <= |k.vm.s.free|
    && forall h: nat :: Covers(x, h) ==> Outside(k.vm.s, k.vm.roots, h) && (h + 1) * 512 <= |k.vm.s.mem|
  }

  predicate RunsApart(x: Run, y: Run) {
    x.start + x.len <= y.start || y.start + y.len <= x.start
  }

  /** No client holds a table or a free page, and no two hold the same page. */
  ghost predicate ClientsOk(k: Kernel) {
    (forall x :: x in k.live ==> RunOk(k, x)) && (forall x, y :: x in k.live && y in k.live && x != y ==> RunsApart(x, y))
  }

  ghost predicate KernelOk(k: Kernel) {
    Inv(k.vm.s, k.vm.roots) && ClientsOk(k)
  }

  /** What clients do to memory and the bitmap; a run nobody holds is neither given back nor written. */
  ghost function Client(k: Kernel, e: Event): Kernel
    requires KernelOk(k) && !e.Tables?
  {
    var s := k.vm.s;
    match e
    case Grab(n) => (
      match Find(s.free, n)
      case None => k
      case Some(p) => Kernel(k.vm.(s := s.(free := Fill(s.free, p, n, false))), k.live + {Run(p, n)}))
    case GiveBack(x, higher) =>
      if x !in k.live then k
      else
        assert RunOk(k, x);
        Kernel(k.vm.(s := s.(free := Fill(s.free, PageOf(Pointer(x, higher)), x.len, true))), k.live - {x})
    case Store(x, w, v) =>
      if x !in k.live || w >= 512 * x.len then k
      else
        assert RunOk(k, x) && Covers(x, x.start + x.len - 1);
        k.(vm := k.vm.(s := s.(mem := s.mem[x.start * 512 + w := v])))
  }

  /** What a client's event changes: an allocation takes the lowest run, giving a run back frees exactly its pages, a store changes one word. */
  lemma ClientDoes(k: Kernel, e: Event)
    requires KernelOk(k) && !e.Tables?
    ensures Next(k, e) == Some((Client(k, e), []))
    ensures var s, k' := k.vm.s, Client(k, e);
      var s' := k'.vm.s;
      && k'.vm.roots == k.vm.roots
      && match e
         case Grab(n) =>
           if n > 0 && exists p: nat :: RunAt(s.free, p, n) then
             exists p: nat :: RunAt(s.free, p, n) && (forall q :: 0 <= q < p ==> !RunAt(s.free, q, n))
               && k'.live == k.live + {Run(p, n)} && s'.mem == s.mem && Without(s.free, s'.free, Run(p, n))
           else k' == k
         case GiveBack(x, _) =>
           if x in k.live then
             && k'.live == k.live - {x} && s'.mem == s.mem && |s'.free| == |s.free|
             && forall page :: 0 <= page < |s.free| ==> (s'.free[page] <==> s.free[page] || Covers(x, page))
           else k' == k
         case Store(x, w, v) =>
           if x in k.live && w < 512 * x.len then
             && k'.live == k.live && s'.free == s.free && |s'.mem| == |s.mem|
             && forall i :: 0 <= i < |s.mem| ==> s'.mem[i] == if i == x.start * 512 + w then v else s.mem[i]
           else k' == k
  {
    hide NotTable, TablesOk, OnePath, Outside;
    match e
    case Grab(n) =>
      var r := Find(k.vm.s.free, n);
      if r.Some? {
        assert RunAt(k.vm.s.free, r.value, n) && Without(k.vm.s.free, Client(k, e).vm.s.free, Run(r.value, n));
      }
    case GiveBack(x, higher) =>
      if x in k.live {
        assert RunOk(k, x);
        PointerPage(x, higher);
      }
    case Store(x, w, v) =>
      if x in k.live {
        assert RunOk(k, x) && Covers(x, x.start + x.len - 1);
      }
  }

  /** `None` is a panic of the page-table code; its answers are collected. */
  ghost function Next(k: Kernel, e: Event): Option<(Kernel, seq<u64>)>
    requires KernelOk(k)
  {
    match e
    case Tables(op) => (
      match AddressSpaces.Step(k.vm, op)
      case None => None
      case Some((vm', out)) => Some((k.(vm := vm'), [out])))
    case _ => Some((Client(k, e), []))
  }

  lemma RunSpared(k: Kernel, vm': Vm, x: Run)
    requires RunOk(k, x) && |vm'.s.free| == |k.vm.s.free|
    requires forall h: nat :: Covers(x, h) ==> Spared(k.vm.s, k.vm.roots, vm'.s, vm'.roots, h)
    ensures RunOk(k.(vm := vm'), x)
  {
    hide NotTable;
    assert Covers(x, x.start);
  }

  lemma TablesOkAfter(k: Kernel, op: AddressSpaces.Op)
    requires KernelOk(k) && AddressSpaces.Step(k.vm, op).Some?
    ensures KernelOk(k.(vm := AddressSpaces.Step(k.vm, op).value.0))
  {
    hide TablesOk, OnePath, NotTable, AddressSpaces.Step;
    var vm' := AddressSpaces.Step(k.vm, op).value.0;
    AddressSpaces.StepKeepsInv(k.vm, op);
    forall x | x in k.live ensures RunOk(k.(vm := vm'), x) {
      assert RunOk(k, x);
      forall h: nat | Covers(x, h) ensures Spared(k.vm.s, k.vm.roots, vm'.s, vm'.roots, h) {
        StepSpares(k.vm, op, h);
      }
      assert Covers(x, x.start);
      RunSpared(k, vm', x);
    }
  }

  lemma FreeNotTable(s: Sys, roots: seq<nat>, h: nat)
    requires Inv(s, roots) && h < |s.free| && s.free[h]
    ensures NotTable(s.mem, roots, h) && (h + 1) * 512 <= |s.mem|
  {
    forall t, p | 0 <= t < |roots| && ValidPath(p) ensures TableAt(s.mem, roots[t], p) != Some(h) {
      assert TableOkAt(s, roots, t, p);
    }
  }

  lemma GrabOk(k: Kernel, n: nat)
    requires KernelOk(k)
    ensures ClientsOk(Client(k, Grab(n))) && Foreign(k.vm.s, k.vm.roots, Client(k, Grab(n)).vm.s)
  {
    hide NotTable, TablesOk, OnePath;
    var s := k.vm.s;
    forall h: nat | h < |s.free| && s.free[h] ensures NotTable(s.mem, k.vm.roots, h) && (h + 1) * 512 <= |s.mem| {
      FreeNotTable(s, k.vm.roots, h);
    }
    var k' := Client(k, Grab(n));
    if Find(s.free, n).Some? {
      var x := Run(Find(s.free, n).value, n);
      GrabbedOk(k, x);
      forall y | y in k.live ensures RunsApart(x, y) && RunOk(k', y) {
        GrabApart(k, x, y);
      }
    }
  }

  lemma GrabbedOk(k: Kernel, x: Run)
    requires KernelOk(k) && x.len > 0 && RunAt(k.vm.s.free, x.start, x.len)
    ensures RunOk(Kernel(k.vm.(s := k.vm.s.(free := Fill(k.vm.s.free, x.start, x.len, false))), k.live + {x}), x)
  {
    hide NotTable, TablesOk, OnePath;
    forall h: nat | Covers(x, h) ensures NotTable(k.vm.s.mem, k.vm.roots, h) && (h + 1) * 512 <= |k.vm.s.mem| {
      FreeNotTable(k.vm.s, k.vm.roots, h);
    }
  }

  lemma GrabApart(k: Kernel, x: Run, y: Run)
    requires KernelOk(k) && x.len > 0 && RunAt(k.vm.s.free, x.start, x.len) && y in k.live
    ensures RunsApart(x, y) && RunsApart(y, x) && x != y
    ensures RunOk(Kernel(k.vm.(s := k.vm.s.(free := Fill(k.vm.s.free, x.start, x.len, false))), k.live + {x}), y)
  {
    hide NotTable, TablesOk, OnePath;
    assert RunOk(k, y);
    var h := if x.start <= y.start then y.start else x.start;
    if Covers(x, h) && Covers(y, h) {
      assert false;
    }
  }

  lemma GiveBackOk(k: Kernel, x: Run, higher: bool)
    requires KernelOk(k)
    ensures ClientsOk(Client(k, GiveBack(x, higher))) && Foreign(k.vm.s, k.vm.roots, Client(k, GiveBack(x, higher)).vm.s)
  {
    hide NotTable, TablesOk, OnePath;
    var s, k' := k.vm.s, Client(k, GiveBack(x, higher));
    forall h: nat | h < |s.free| && s.free[h] ensures NotTable(s.mem, k.vm.roots, h) && (h + 1) * 512 <= |s.mem| {
      FreeNotTable(s, k.vm.roots, h);
    }
    if x in k.live {
      assert RunOk(k, x);
      PointerPage(x, higher);
      forall h: nat | Covers(x, h) ensures NotTable(s.mem, k.vm.roots, h) && (h + 1) * 512 <= |s.mem| {
        assert Outside(s, k.vm.roots, h);
      }
      forall y | y in k'.live ensures RunOk(k', y) {
        assert RunOk(k, y) && RunsApart(x, y);
      }
    }
  }

  lemma StoreOk(k: Kernel, x: Run, w: nat, v: u64)
    requires KernelOk(k)
    ensures ClientsOk(Client(k, Store(x, w, v))) && Foreign(k.vm.s, k.vm.roots, Client(k, Store(x, w, v)).vm.s)
  {
    hide NotTable, TablesOk, OnePath;
    var s, k' := k.vm.s, Client(k, Store(x, w, v));
    forall h: nat | h < |s.free| && s.free[h] ensures NotTable(s.mem, k.vm.roots, h) && (h + 1) * 512 <= |s.mem| {
      FreeNotTable(s, k.vm.roots, h);
    }
    if x in k.live && w < 512 * x.len {
      assert RunOk(k, x) && Covers(x, x.start + x.len - 1);
      forall h: nat, j | 0 <= j < 512 && !Covers(x, h) ensures Entry(k'.vm.s.mem, h, j) == Entry(s.mem, h, j) {
        StoreElsewhere(s.mem, x, w, v, h, j);
      }
      ForeignNotTable(s, k.vm.roots, k'.vm.s);
      forall y | y in k.live ensures RunOk(k', y) {
        assert RunOk(k, y);
      }
    }
  }

  lemma StoreElsewhere(m: seq<u64>, x: Run, w: nat, v: u64, h: nat, j: nat)
    requires j < 512 && w < 512 * x.len && x.start * 512 + w < |m| && !Covers(x, h)
    ensures Entry(m[x.start * 512 + w := v], h, j) == Entry(m, h, j)
  {
  }

  lemma ForeignNotTable(s: Sys, roots: seq<nat>, s': Sys)
    requires Foreign(s, roots, s')
    ensures forall h :: NotTable(s'.mem, roots, h) <==> NotTable(s.mem, roots, h)
  {
    forall t, p | 0 <= t < |roots| && ValidPath(p) ensures TableAt(s'.mem, roots[t], p) == TableAt(s.mem, roots[t], p) {
      ForeignTable(s, roots, s', t, p);
    }
  }

  lemma ClientOk(k: Kernel, e: Event)
    requires KernelOk(k) && !e.Tables?
    ensures KernelOk(Client(k, e)) && Foreign(k.vm.s, k.vm.roots, Client(k, e).vm.s) && Client(k, e).vm.roots == k.vm.roots
  {
    hide ClientsOk, Foreign, Inv, NotTable;
    match e {
      case Grab(n) => GrabOk(k, n);
      case GiveBack(x, higher) => GiveBackOk(k, x, higher);
      case Store(x, w, v) => StoreOk(k, x, w, v);
    }
    ClientRoots(k, e);
    ForeignInv(k.vm.s, k.vm.roots, Client(k, e).vm.s);
  }

  lemma ClientRoots(k: Kernel, e: Event)
    requires KernelOk(k) && !e.Tables?
    ensures Client(k, e).vm.roots == k.vm.roots
  {
  }

  lemma NextOk(k: Kernel, e: Event)
    requires KernelOk(k) && Next(k, e).Some?
    ensures KernelOk(Next(k, e).value.0)
  {
    hide KernelOk, Client, AddressSpaces.Step;
    if e.Tables? {
      TablesOkAfter(k, e.op);
    } else {
      ClientOk(k, e);
    }
  }

  ghost function History(k: Kernel, es: seq<Event>): (x: Option<(Kernel, seq<u64>)>)
    requires KernelOk(k)
    ensures x.Some? ==> KernelOk(x.value.0)
    decreases |es|
  {
    if es == [] then Some((k, []))
    else
      match Next(k, es[0])
      case None => None
      case Some((k1, out)) =>
        NextOk(k, es[0]);
        match History(k1, es[1..])
        case None => None
        case Some((k2, outs)) => Some((k2, out + outs))
  }

  /** A history followed by one more event. */
  lemma {:induction false} HistoryAppend(k: Kernel, es: seq<Event>, e: Event)
    requires KernelOk(k)
    ensures History(k, []) == Some((k, []))
    ensures History(k, es + [e]) ==
      match History(k, es)
      case None => None
      case Some((k1, outs)) =>
        match Next(k1, e)
        case None => None
        case Some((k2, out)) => Some((k2, outs + out))
    decreases |es|
  {
    hide KernelOk, Next;
    if es == [] {
      assert es + [e] == [e];
      assert [e][1..] == [];
      if Next(k, e).Some? {
        NextOk(k, e);
        assert Next(k, e).value.1 + [] == [] + Next(k, e).value.1;
      }
    } else {
      assert (es + [e])[1..] == es[1..] + [e];
      if Next(k, es[0]).Some? {
        NextOk(k, es[0]);
        var (k1, out) := Next(k, es[0]).value;
        HistoryAppend(k1, es[1..], e);
        if History(k, es + [e]).Some? {
          var (k2, outs) := History(k1, es[1..]).value;
          assert out + (outs + Next(k2, e).value.1) == (out + outs) + Next(k2, e).value.1;
        }
      }
    }
  }

  function TableOps(es: seq<Event>): seq<AddressSpaces.Op> {
    if es == [] then [] else (if es[0].Tables? then [es[0].op] else []) + TableOps(es[1..])
  }

  lemma NextRefines(k: Kernel, r: AddressSpaces.Flats, e: Event)
    requires KernelOk(k) && AddressSpaces.Refines(k.vm, r) && Next(k, e).Some?
    ensures AddressSpaces.Refines(Next(k, e).value.0.vm, if e.Tables? then AddressSpaces.RefStep(r, e.op).0 else r)
    ensures Next(k, e).value.1 == if e.Tables? then [AddressSpaces.RefStep(r, e.op).1] else []
  {
    hide KernelOk, Client, AddressSpaces.Step, Foreign, Inv;
    if e.Tables? {
      StepInv(k);
      AddressSpaces.StepRefines(k.vm, r, e.op);
    } else {
      ClientOk(k, e);
      ForeignRefines(k.vm, r, Client(k, e).vm.s);
    }
  }

  lemma StepInv(k: Kernel)
    requires KernelOk(k)
    ensures |k.vm.s.free| <= MAX_FRAMES && |k.vm.roots| > 0
  {
  }

  /**
    Refinement with everyone at work: whatever clients allocate, free and store in between,
    the trees hold, and `get_mapping` answers, exactly what the flat machine does on the
    page-table operations alone; tables, free pages and clients' pages stay apart.
   */
  lemma {:induction false} HistoryRefines(k: Kernel, r: AddressSpaces.Flats, es: seq<Event>)
    requires KernelOk(k) && AddressSpaces.Refines(k.vm, r) && History(k, es).Some?
    ensures var (k', outs) := History(k, es).value;
      var (r', outs') := AddressSpaces.RefRun(r, TableOps(es));
      KernelOk(k') && AddressSpaces.Refines(k'.vm, r') && outs == outs'
    decreases |es|
  {
    hide KernelOk, Inv, AddressSpaces.LinksAgree, AddressSpaces.SlotsAgree, Next, AddressSpaces.RefStep, AddressSpaces.Read, Flat;
    if es != [] {
      var (k1, out) := Next(k, es[0]).value;
      NextOk(k, es[0]);
      NextRefines(k, r, es[0]);
      var r1 := if es[0].Tables? then AddressSpaces.RefStep(r, es[0].op).0 else r;
      HistoryRefines(k1, r1, es[1..]);
      if es[0].Tables? {
        assert TableOps(es)[0] == es[0].op && TableOps(es)[1..] == TableOps(es[1..]);
      } else {
        assert TableOps(es) == TableOps(es[1..]);
      }
    }
  }

  // -------- a client's own words --------

  predicate NamesRun(e: Event, x: Run) {
    (e.GiveBack? || e.Store?) && e.run == x
  }

  ghost predicate SameWords(m: seq<u64>, m': seq<u64>, x: Run) {
    forall h: nat, j :: Covers(x, h) && 0 <= j < 512 ==> Entry(m', h, j) == Entry(m, h, j)
  }

  lemma NextLeaves(k: Kernel, e: Event, x: Run)
    requires KernelOk(k) && Next(k, e).Some? && x in k.live && !NamesRun(e, x)
    ensures var k' := Next(k, e).value.0; x in k'.live && SameWords(k.vm.s.mem, k'.vm.s.mem, x)
  {
    hide NotTable, TablesOk, OnePath, AddressSpaces.Step;
    assert RunOk(k, x);
    var k' := Next(k, e).value.0;
    match e
    case Tables(op) =>
      forall h: nat, j | Covers(x, h) && 0 <= j < 512 ensures Entry(k'.vm.s.mem, h, j) == Entry(k.vm.s.mem, h, j) {
        StepSpares(k.vm, op, h);
      }
    case Grab(_) =>
    case GiveBack(_, _) =>
    case Store(y, w, v) =>
      if y in k.live && w < 512 * y.len {
        assert RunOk(k, y) && RunsApart(x, y) && Covers(y, y.start + y.len - 1);
        forall h: nat, j | Covers(x, h) && 0 <= j < 512 ensures Entry(k'.vm.s.mem, h, j) == Entry(k.vm.s.mem, h, j) {
          StoreElsewhere(k.vm.s.mem, y, w, v, h, j);
        }
      }
  }

  /** A run of pages that a history neither writes nor gives back is still its client's, with every word as it was. */
  lemma {:induction false} ClientUndisturbed(k: Kernel, es: seq<Event>, x: Run)
    requires KernelOk(k) && History(k, es).Some? && x in k.live
    requires forall n :: 0 <= n < |es| ==> !NamesRun(es[n], x)
    ensures var k' := History(k, es).value.0; x in k'.live && SameWords(k.vm.s.mem, k'.vm.s.mem, x)
    decreases |es|
  {
    hide KernelOk, Next;
    if es != [] {
      var k1 := Next(k, es[0]).value.0;
      NextOk(k, es[0]);
      NextLeaves(k, es[0], x);
      ClientUndisturbed(k1, es[1..], x);
    }
  }
}
