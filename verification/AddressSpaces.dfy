/**
  Every run of `map_page`, `get_mapping` and `VirtualMemManager::new` against a flat
  reference machine that knows nothing of tables, frames or the page allocator.
 */
module AddressSpaces {
  import opened Bits
  import opened Options
  import opened Sequences
  import opened PhysAddr
  import opened PmmSpec
  import opened PageTables

  function Slot(n: nat): nat {
    n / 0x800_0000
  }

  // -------- writing a leaf entry --------

  lemma {:induction false} SameSubtree(m: seq<u64>, root: nat, root': nat, path: seq<nat>)
    requires path != [] && TableAt(m, root, [path[0]]) == TableAt(m, root', [path[0]])
    ensures TableAt(m, root, path) == TableAt(m, root', path)
    decreases |path|
  {
    if |path| == 1 {
      assert path == [path[0]];
    } else {
      SameSubtree(m, root, root', Front(path));
    }
  }

  lemma {:induction false} PrefixPresent(m: seq<u64>, root: nat, path: seq<nat>)
    requires path != [] && TableAt(m, root, path).Some?
    ensures TableAt(m, root, [path[0]]).Some?
    decreases |path|
  {
    if |path| == 1 {
      assert path == [path[0]];
    } else {
      PrefixPresent(m, root, Front(path));
    }
  }

  /** Space `t` writes `v` at leaf `i` of its table `f`, found along the three-step path `d`. */
  datatype LeafWrite = LeafWrite(s: Sys, roots: seq<nat>, t: nat, d: seq<nat>, f: nat, i: nat, v: u64)

  ghost predicate LeafOk(w: LeafWrite) {
    && Inv(w.s, w.roots) && w.t < |w.roots| && ValidPath(w.d) && |w.d| == 3 && w.i < 512
    && TableAt(w.s.mem, w.roots[w.t], w.d) == Some(w.f)
  }

  function After(w: LeafWrite): Sys {
    w.s.(mem := Put(w.s.mem, w.f, w.i, w.v))
  }

  lemma {:induction false} LeafKeepsTable(w: LeafWrite, u: nat, path: seq<nat>)
    requires LeafOk(w) && u < |w.roots| && ValidPath(path)
    ensures TableAt(After(w).mem, w.roots[u], path) == TableAt(w.s.mem, w.roots[u], path)
    decreases |path|
  {
    if path != [] {
      var p := Front(path);
      FrontValid(path);
      LeafKeepsTable(w, u, p);
      assert OnePathAt(w.s, w.roots, u, p, w.t, w.d) && TableOkAt(w.s, w.roots, w.t, w.d);
      if TableAt(w.s.mem, w.roots[u], p).Some? {
        EntryOfPut(w.s.mem, w.f, w.i, w.v, TableAt(w.s.mem, w.roots[u], p).value, Last(path));
      }
    }
  }

  lemma LeafKeepsOwner(w: LeafWrite, u: nat, path: seq<nat>)
    requires LeafOk(w) && u < |w.roots| && ValidPath(path)
    ensures Owner(After(w).mem, w.roots, u, path) == Owner(w.s.mem, w.roots, u, path)
    ensures path != [] ==> Linked(After(w).mem, w.roots, u, path[0]) == Linked(w.s.mem, w.roots, u, path[0])
  {
    if path != [] {
      LeafKeepsTable(w, u, [path[0]]);
      LeafKeepsTable(w, 0, [path[0]]);
    }
  }

  lemma LeafKeepsInv(w: LeafWrite)
    requires LeafOk(w)
    ensures Inv(After(w), w.roots)
  {
    forall u, q: seq<nat> | 0 <= u < |w.roots| ensures TableOkAt(After(w), w.roots, u, q) {
      if ValidPath(q) {
        LeafKeepsTable(w, u, q);
        assert TableOkAt(w.s, w.roots, u, q);
      }
    }
    forall u, q: seq<nat>, u', q': seq<nat> | 0 <= u < |w.roots| && 0 <= u' < |w.roots|
      ensures OnePathAt(After(w), w.roots, u, q, u', q')
    {
      if ValidPath(q) && ValidPath(q') {
        LeafKeepsTable(w, u, q);
        LeafKeepsTable(w, u', q');
        LeafKeepsOwner(w, u, q);
        LeafKeepsOwner(w, u', q');
        assert OnePathAt(w.s, w.roots, u, q, u', q');
      }
    }
  }

  lemma SameOwnerSameTable(s: Sys, roots: seq<nat>, t: nat, u: nat, d: seq<nat>)
    requires t < |roots| && u < |roots| && ValidPath(d) && d != []
    requires Owner(s.mem, roots, t, d) == Owner(s.mem, roots, u, d)
    ensures TableAt(s.mem, roots[t], d) == TableAt(s.mem, roots[u], d)
  {
    if t != u {
      SameSubtree(s.mem, roots[t], roots[u], d);
    }
  }

  lemma LeafFlat(w: LeafWrite, n: nat, u: nat, k: nat)
    requires LeafOk(w) && n < PAGES && k < PAGES && w.d == Dir(n) && w.i == Leaf(n) && u < |w.roots|
    ensures Flat(After(w).mem, w.roots[u], k) ==
      if k == n && Owner(w.s.mem, w.roots, u, Dir(n)) == Owner(w.s.mem, w.roots, w.t, Dir(n)) then w.v
      else Flat(w.s.mem, w.roots[u], k)
  {
    LeafKeepsTable(w, u, Dir(k));
    assert OnePathAt(w.s, w.roots, u, Dir(k), w.t, w.d) && TableOkAt(w.s, w.roots, w.t, w.d);
    if k == n && Owner(w.s.mem, w.roots, u, Dir(n)) == Owner(w.s.mem, w.roots, w.t, Dir(n)) {
      SameOwnerSameTable(w.s, w.roots, u, w.t, Dir(n));
    }
    if TableAt(w.s.mem, w.roots[u], Dir(k)).Some? {
      EntryOfPut(w.s.mem, w.f, w.i, w.v, TableAt(w.s.mem, w.roots[u], Dir(k)).value, Leaf(k));
      if Dir(k) == Dir(n) && Leaf(k) == Leaf(n) {
        DirInjective(k, n);
      }
    }
  }

  // -------- creating a space --------

  /** The fresh frame `g` becomes a root holding copies of the kernel's two shared slots. */
  datatype Birth = Birth(s: Sys, s': Sys, roots: seq<nat>, g: nat)

  ghost predicate Born(b: Birth) {
    Inv(b.s, b.roots) && NewSpace(b.s, b.roots[0]) == Some((b.s', b.g))
  }

  lemma BirthEntry(b: Birth, h: nat, j: nat)
    requires Born(b) && j < 512
    ensures Entry(b.s'.mem, h, j) ==
      if h != b.g then Entry(b.s.mem, h, j)
      else if SharedSlot(j) then Entry(b.s.mem, b.roots[0], j) else 0
  {
    var k := b.roots[0];
    assert TableOkAt(b.s, b.roots, 0, []);
    var m0 := Fill(b.s.mem, b.g * 512, 512, 0);
    var m1 := Put(m0, b.g, 256, Entry(m0, k, 256));
    EntryOfFill(b.s.mem, b.g, h, j);
    EntryOfFill(b.s.mem, b.g, k, 256);
    EntryOfFill(b.s.mem, b.g, k, 511);
    EntryOfPut(m0, b.g, 256, Entry(m0, k, 256), h, j);
    EntryOfPut(m0, b.g, 256, Entry(m0, k, 256), k, 511);
    EntryOfPut(m1, b.g, 511, Entry(m1, k, 511), h, j);
  }

  lemma {:induction false} BirthOldTable(b: Birth, u: nat, path: seq<nat>)
    requires Born(b) && u < |b.roots| && ValidPath(path)
    ensures TableAt(b.s'.mem, b.roots[u], path) == TableAt(b.s.mem, b.roots[u], path)
    ensures TableAt(b.s.mem, b.roots[u], path) != Some(b.g)
    decreases |path|
  {
    assert TableOkAt(b.s, b.roots, u, path);
    if path != [] {
      var p := Front(path);
      FrontValid(path);
      BirthOldTable(b, u, p);
      if TableAt(b.s.mem, b.roots[u], p).Some? {
        BirthEntry(b, TableAt(b.s.mem, b.roots[u], p).value, Last(path));
      }
    }
  }

  lemma {:induction false} BirthNewTable(b: Birth, path: seq<nat>)
    requires Born(b) && ValidPath(path) && path != []
    ensures TableAt(b.s'.mem, b.g, path) ==
      if SharedSlot(path[0]) then TableAt(b.s.mem, b.roots[0], path) else None
    decreases |path|
  {
    var p := Front(path);
    FrontValid(path);
    if p == [] {
      BirthEntry(b, b.g, path[0]);
      assert !Present(0);
    } else {
      BirthNewTable(b, p);
      BirthOldTable(b, 0, p);
      if TableAt(b.s.mem, b.roots[0], p).Some? {
        BirthEntry(b, TableAt(b.s.mem, b.roots[0], p).value, Last(path));
      }
    }
  }

  lemma BirthLinked(b: Birth, u: nat, i: nat)
    requires Born(b) && u <= |b.roots| && i < 512
    ensures Linked(b.s'.mem, b.roots + [b.g], u, i) ==
      if u < |b.roots| then Linked(b.s.mem, b.roots, u, i)
      else SharedSlot(i) && TableAt(b.s.mem, b.roots[0], [i]).Some?
  {
    BirthOldTable(b, 0, [i]);
    if u < |b.roots| {
      BirthOldTable(b, u, [i]);
    } else {
      BirthNewTable(b, [i]);
    }
  }

  lemma BirthTablesOk(b: Birth)
    requires Born(b)
    ensures FreeOk(b.s') && TablesOk(b.s', b.roots + [b.g])
  {
    var roots := b.roots + [b.g];
    forall u, q: seq<nat> | 0 <= u < |roots| ensures TableOkAt(b.s', roots, u, q) {
      if ValidPath(q) {
        if u < |b.roots| {
          BirthOldTable(b, u, q);
          assert TableOkAt(b.s, b.roots, u, q);
        } else if q != [] {
          BirthNewTable(b, q);
          assert TableOkAt(b.s, b.roots, 0, q);
        }
      }
    }
  }

  /** Where a table of the enlarged system was before: under the same space, or under the kernel. */
  lemma BirthSource(b: Birth, u: nat, q: seq<nat>)
    requires Born(b) && u <= |b.roots| && ValidPath(q) && !(u == |b.roots| && q == [])
    requires TableAt(b.s'.mem, (b.roots + [b.g])[u], q).Some?
    ensures var u0 := if u < |b.roots| then u else 0;
      && TableAt(b.s'.mem, (b.roots + [b.g])[u], q) == TableAt(b.s.mem, b.roots[u0], q) != Some(b.g)
      && Owner(b.s'.mem, b.roots + [b.g], u, q) == Owner(b.s.mem, b.roots, u0, q)
  {
    if q != [] {
      BirthLinked(b, u, q[0]);
    }
    if u < |b.roots| {
      BirthOldTable(b, u, q);
    } else {
      BirthNewTable(b, q);
      BirthOldTable(b, 0, q);
      PrefixPresent(b.s.mem, b.roots[0], q);
    }
  }

  lemma BirthOnePathAt(b: Birth, u: nat, q: seq<nat>, u': nat, q': seq<nat>)
    requires Born(b) && u <= |b.roots| && u' <= |b.roots|
    ensures OnePathAt(b.s', b.roots + [b.g], u, q, u', q')
  {
    var roots := b.roots + [b.g];
    if ValidPath(q) && ValidPath(q') && TableAt(b.s'.mem, roots[u], q).Some?
       && TableAt(b.s'.mem, roots[u], q) == TableAt(b.s'.mem, roots[u'], q')
    {
      var newRoot, newRoot' := u == |b.roots| && q == [], u' == |b.roots| && q' == [];
      if !newRoot {
        BirthSource(b, u, q);
      }
      if !newRoot' {
        BirthSource(b, u', q');
      }
      if !newRoot && !newRoot' {
        var u0, u0' := if u < |b.roots| then u else 0, if u' < |b.roots| then u' else 0;
        assert OnePathAt(b.s, b.roots, u0, q, u0', q');
      }
    }
  }

  lemma BirthKeepsInv(b: Birth)
    requires Born(b)
    ensures Inv(b.s', b.roots + [b.g])
  {
    BirthTablesOk(b);
    forall u, q: seq<nat>, u', q': seq<nat> | 0 <= u < |b.roots + [b.g]| && 0 <= u' < |b.roots + [b.g]|
      ensures OnePathAt(b.s', b.roots + [b.g], u, q, u', q')
    {
      BirthOnePathAt(b, u, q, u', q');
    }
  }

  lemma BirthFlat(b: Birth, u: nat, n: nat)
    requires Born(b) && u <= |b.roots| && n < PAGES
    ensures Flat(b.s'.mem, (b.roots + [b.g])[u], n) ==
      if u < |b.roots| then Flat(b.s.mem, b.roots[u], n)
      else if SharedSlot(Slot(n)) then Flat(b.s.mem, b.roots[0], n) else 0
  {
    var u0 := if u < |b.roots| then u else 0;
    BirthOldTable(b, u0, Dir(n));
    if u == |b.roots| {
      BirthNewTable(b, Dir(n));
    }
    var h := TableAt(b.s.mem, b.roots[u0], Dir(n));
    if h.Some? {
      BirthEntry(b, h.value, Leaf(n));
    }
  }

  // -------- the flat reference machine --------

  /**
    One map from page numbers to entries per space, the slots that read through to the
    kernel's map, and the kernel slots that hold a table so far.
   */
  datatype Flats = Flats(maps: seq<map<nat, u64>>, links: set<(nat, nat)>, kernelSlots: set<nat>)

  function Home(r: Flats, t: nat, n: nat): nat {
    if (t, Slot(n)) in r.links then 0 else t
  }

  function Read(r: Flats, t: nat, n: nat): u64
    requires Home(r, t, n) < |r.maps|
  {
    var own := r.maps[Home(r, t, n)];
    if n in own then own[n] else 0
  }

  function Touch(r: Flats, t: nat, n: nat): Flats {
    r.(kernelSlots := if t == 0 then r.kernelSlots + {Slot(n)} else r.kernelSlots)
  }

  function Write(r: Flats, t: nat, n: nat, v: u64): Flats
    requires Home(r, t, n) < |r.maps|
  {
    var h := Home(r, t, n);
    var own: map<nat, u64> := r.maps[h][n := v];
    r.(maps := r.maps[h := own])
  }

  function Spawn(r: Flats): Flats {
    var t := |r.maps|;
    Flats(r.maps + [map[]], r.links + set i | i in r.kernelSlots && SharedSlot(i) :: (t, i), r.kernelSlots)
  }

  datatype Op =
    | Map(t: nat, virt: u64, phys: u64, flags: u64)
    | Get(t: nat, virt: u64)
    | New

  function OrWord(x: u64, y: u64): (r: u64)
    ensures r == Or(x, y)
  {
    Powers64();
    WithinWidth(x, y, 64);
    Or(x, y)
  }

  /** The reference step; operations on a space that does not exist do nothing. */
  function RefStep(r: Flats, op: Op): (Flats, u64)
    requires |r.maps| > 0
  {
    match op
    case Map(t, v, p, f) =>
      if t < |r.maps| then (Write(Touch(r, t, PageNo(v)), t, PageNo(v), OrWord(p, f)), 0) else (r, 0)
    case Get(t, v) =>
      if t < |r.maps| then (Touch(r, t, PageNo(v)), Read(r, t, PageNo(v))) else (r, 0)
    case New => (Spawn(r), 0)
  }

  datatype Vm = Vm(s: Sys, roots: seq<nat>)

  /** The kernel's step over page tables in memory; `None` is the panic on exhausted memory. */
  function Step(vm: Vm, op: Op): Option<(Vm, u64)>
    requires |vm.s.free| <= MAX_FRAMES && |vm.roots| > 0
  {
    match op
    case Map(t, v, p, f) =>
      if t >= |vm.roots| then Some((vm, 0))
      else (match MapPage(vm.s, vm.roots[t], PageNo(v), OrWord(p, f))
            case None => None
            case Some(s') => Some((Vm(s', vm.roots), 0)))
    case Get(t, v) =>
      if t >= |vm.roots| then Some((vm, 0))
      else (match GetMapping(vm.s, vm.roots[t], PageNo(v))
            case None => None
            case Some((s', e)) => Some((Vm(s', vm.roots), e)))
    case New =>
      (match NewSpace(vm.s, vm.roots[0])
       case None => None
       case Some((s', g)) => Some((Vm(s', vm.roots + [g]), 0)))
  }

  // -------- refinement --------

  ghost predicate FlatAgrees(vm: Vm, r: Flats) {
    && |r.maps| == |vm.roots| > 0
    && forall t, n :: 0 <= t < |vm.roots| && 0 <= n < PAGES ==> Read(r, t, n) == Flat(vm.s.mem, vm.roots[t], n)
  }

  ghost predicate LinksAgree(vm: Vm, r: Flats) {
    && (forall t, i :: (t, i) in r.links ==> 0 < t < |vm.roots| && i < 512)
    && (forall t, i :: 0 <= t < |vm.roots| && 0 <= i < 512 ==> ((t, i) in r.links <==> Linked(vm.s.mem, vm.roots, t, i)))
  }

  ghost predicate SlotsAgree(vm: Vm, r: Flats)
    requires |vm.roots| > 0
  {
    && (forall i :: i in r.kernelSlots ==> i < 512)
    && (forall i :: 0 <= i < 512 ==> (i in r.kernelSlots <==> TableAt(vm.s.mem, vm.roots[0], [i]).Some?))
  }

  ghost predicate Refines(vm: Vm, r: Flats) {
    Inv(vm.s, vm.roots) && FlatAgrees(vm, r) && LinksAgree(vm, r) && SlotsAgree(vm, r)
  }

  lemma SlotOf(n: nat)
    requires n < PAGES
    ensures Slot(n) == Dir(n)[0] < 512
  {
  }

  /** A walk allocates tables but changes no mapping, no link, and at most one kernel slot. */
  lemma WalkRefines(vm: Vm, r: Flats, t: nat, n: nat)
    requires Refines(vm, r) && t < |vm.roots| && n < PAGES
    requires Walk(vm.s, vm.roots[t], Dir(n)).Some?
    ensures var (s', f) := Walk(vm.s, vm.roots[t], Dir(n)).value;
      Refines(Vm(s', vm.roots), Touch(r, t, n)) && TableAt(s'.mem, vm.roots[t], Dir(n)) == Some(f)
  {
    var (s', f) := Walk(vm.s, vm.roots[t], Dir(n)).value;
    WalkKeeps(vm.s, vm.roots, t, Dir(n));
    SlotOf(n);
    PrefixPresent(s'.mem, vm.roots[t], Dir(n));
    var vm', r' := Vm(s', vm.roots), Touch(r, t, n);
    forall u, k | 0 <= u < |vm.roots| && 0 <= k < PAGES
      ensures Read(r', u, k) == Flat(s'.mem, vm.roots[u], k)
    {
      assert Read(r', u, k) == Read(r, u, k);
    }
    forall i | 0 <= i < 512
      ensures i in r'.kernelSlots <==> TableAt(s'.mem, vm.roots[0], [i]).Some?
    {
      assert ValidPath([i]);
    }
  }

  lemma GetRefines(vm: Vm, r: Flats, t: nat, n: nat)
    requires Refines(vm, r) && t < |vm.roots| && n < PAGES && GetMapping(vm.s, vm.roots[t], n).Some?
    ensures var (s', e) := GetMapping(vm.s, vm.roots[t], n).value;
      Refines(Vm(s', vm.roots), Touch(r, t, n)) && e == Read(r, t, n)
  {
    WalkRefines(vm, r, t, n);
    var (s', f) := Walk(vm.s, vm.roots[t], Dir(n)).value;
    assert Read(Touch(r, t, n), t, n) == Flat(s'.mem, vm.roots[t], n);
  }

  lemma WriteRead(vm: Vm, r: Flats, w: LeafWrite, n: nat, u: nat, k: nat)
    requires Refines(vm, r) && LeafOk(w) && n < PAGES && k < PAGES && u < |vm.roots|
    requires w.s == vm.s && w.roots == vm.roots && w.d == Dir(n) && w.i == Leaf(n)
    requires Home(r, w.t, n) < |r.maps| && Home(r, u, k) < |r.maps|
    ensures Read(Write(r, w.t, n, w.v), u, k) == Flat(After(w).mem, vm.roots[u], k)
  {
    LeafFlat(w, n, u, k);
    HomeIsOwner(vm, r, u, n);
    HomeIsOwner(vm, r, w.t, n);
    assert Read(r, u, k) == Flat(vm.s.mem, vm.roots[u], k);
  }

  lemma WriteRefines(vm: Vm, r: Flats, t: nat, n: nat, f: nat, v: u64)
    requires Refines(vm, r) && t < |vm.roots| && n < PAGES && TableAt(vm.s.mem, vm.roots[t], Dir(n)) == Some(f)
    ensures Home(r, t, n) < |r.maps|
    ensures Refines(Vm(vm.s.(mem := Put(vm.s.mem, f, Leaf(n), v)), vm.roots), Write(r, t, n, v))
  {
    var w := LeafWrite(vm.s, vm.roots, t, Dir(n), f, Leaf(n), v);
    LeafKeepsInv(w);
    SlotOf(n);
    var vm', r' := Vm(After(w), vm.roots), Write(r, t, n, v);
    forall u, k | 0 <= u < |vm.roots| && 0 <= k < PAGES
      ensures Read(r', u, k) == Flat(vm'.s.mem, vm.roots[u], k)
    {
      WriteRead(vm, r, w, n, u, k);
    }
    forall u, i | 0 <= u < |vm.roots| && 0 <= i < 512
      ensures Linked(vm'.s.mem, vm.roots, u, i) == Linked(vm.s.mem, vm.roots, u, i)
      ensures TableAt(vm'.s.mem, vm.roots[u], [i]) == TableAt(vm.s.mem, vm.roots[u], [i])
    {
      LeafKeepsOwner(w, u, [i]);
      LeafKeepsTable(w, u, [i]);
    }
  }

  lemma HomeIsOwner(vm: Vm, r: Flats, t: nat, n: nat)
    requires LinksAgree(vm, r) && t < |vm.roots| && n < PAGES
    ensures Home(r, t, n) == Owner(vm.s.mem, vm.roots, t, Dir(n))
  {
    SlotOf(n);
  }

  lemma NewRefines(vm: Vm, r: Flats)
    requires Refines(vm, r) && NewSpace(vm.s, vm.roots[0]).Some?
    ensures var (s', g) := NewSpace(vm.s, vm.roots[0]).value;
      Refines(Vm(s', vm.roots + [g]), Spawn(r))
  {
    var (s', g) := NewSpace(vm.s, vm.roots[0]).value;
    var b := Birth(vm.s, s', vm.roots, g);
    BirthKeepsInv(b);
    var vm', r' := Vm(s', vm.roots + [g]), Spawn(r);
    forall u, i | 0 <= u < |vm'.roots| && 0 <= i < 512
      ensures (u, i) in r'.links <==> Linked(s'.mem, vm'.roots, u, i)
    {
      BirthLinked(b, u, i);
    }
    forall i | 0 <= i < 512
      ensures i in r'.kernelSlots <==> TableAt(s'.mem, vm'.roots[0], [i]).Some?
    {
      BirthOldTable(b, 0, [i]);
    }
    forall u, n | 0 <= u < |vm'.roots| && 0 <= n < PAGES
      ensures Read(r', u, n) == Flat(s'.mem, vm'.roots[u], n)
    {
      SpawnRead(vm, r, u, n);
      BirthFlat(b, u, n);
    }
  }

  /** What the reference machine reads in the enlarged system. */
  lemma SpawnRead(vm: Vm, r: Flats, u: nat, n: nat)
    requires Refines(vm, r) && u <= |vm.roots| && n < PAGES
    ensures Home(Spawn(r), u, n) <= |r.maps|
    ensures Read(Spawn(r), u, n) ==
      if u < |vm.roots| then Flat(vm.s.mem, vm.roots[u], n)
      else if SharedSlot(Slot(n)) then Flat(vm.s.mem, vm.roots[0], n) else 0
  {
    SlotOf(n);
    assert u < |vm.roots| ==> Read(r, u, n) == Flat(vm.s.mem, vm.roots[u], n);
    assert (0, Slot(n)) !in r.links && Read(r, 0, n) == Flat(vm.s.mem, vm.roots[0], n);
    if u == |vm.roots| && SharedSlot(Slot(n)) && Slot(n) !in r.kernelSlots {
      if TableAt(vm.s.mem, vm.roots[0], Dir(n)).Some? {
        PrefixPresent(vm.s.mem, vm.roots[0], Dir(n));
        assert false;
      }
    }
  }

  lemma StepRefines(vm: Vm, r: Flats, op: Op)
    requires Refines(vm, r) && Step(vm, op).Some?
    ensures var (vm', out) := Step(vm, op).value;
      var (r', out') := RefStep(r, op);
      Refines(vm', r') && out == out'
  {
    match op
    case Map(t, v, p, f) =>
      if t < |vm.roots| {
        var n := PageNo(v);
        WalkRefines(vm, r, t, n);
        var (s1, frame) := Walk(vm.s, vm.roots[t], Dir(n)).value;
        WriteRefines(Vm(s1, vm.roots), Touch(r, t, n), t, n, frame, OrWord(p, f));
      }
    case Get(t, v) =>
      if t < |vm.roots| {
        GetRefines(vm, r, t, PageNo(v));
      }
    case New => NewRefines(vm, r);
  }

  ghost function RefRun(r: Flats, ops: seq<Op>): (Flats, seq<u64>)
    requires |r.maps| > 0
    decreases |ops|
  {
    if ops == [] then (r, [])
    else
      var (r1, out) := RefStep(r, ops[0]);
      var (r2, outs) := RefRun(r1, ops[1..]);
      (r2, [out] + outs)
  }

  /** The reference state a system of page tables stands for. */
  ghost function Abstraction(vm: Vm): Flats
    requires |vm.roots| > 0
  {
    Flats(
      seq(|vm.roots|, t requires 0 <= t < |vm.roots| => map n: nat | n < PAGES :: Flat(vm.s.mem, vm.roots[t], n)),
      set t: nat, i: nat | t < |vm.roots| && i < 512 && Linked(vm.s.mem, vm.roots, t, i) :: (t, i),
      set i: nat | i < 512 && TableAt(vm.s.mem, vm.roots[0], [i]).Some?)
  }

  lemma AbstractionRefines(vm: Vm)
    requires Inv(vm.s, vm.roots)
    ensures Refines(vm, Abstraction(vm))
  {
    var r := Abstraction(vm);
    forall t, n | 0 <= t < |vm.roots| && 0 <= n < PAGES
      ensures Read(r, t, n) == Flat(vm.s.mem, vm.roots[t], n)
    {
      HomeIsOwner(vm, r, t, n);
      if Home(r, t, n) != t {
        SameOwnerSameTable(vm.s, vm.roots, t, 0, Dir(n));
      }
    }
  }

  lemma StepKeepsInv(vm: Vm, op: Op)
    requires Inv(vm.s, vm.roots) && Step(vm, op).Some?
    ensures Inv(Step(vm, op).value.0.s, Step(vm, op).value.0.roots)
  {
    AbstractionRefines(vm);
    StepRefines(vm, Abstraction(vm), op);
  }

  ghost function Run(vm: Vm, ops: seq<Op>): (x: Option<(Vm, seq<u64>)>)
    requires Inv(vm.s, vm.roots)
    ensures x.Some? ==> Inv(x.value.0.s, x.value.0.roots)
    decreases |ops|
  {
    if ops == [] then Some((vm, []))
    else
      match Step(vm, ops[0])
      case None => None
      case Some((vm1, out)) =>
        StepKeepsInv(vm, ops[0]);
        match Run(vm1, ops[1..])
        case None => None
        case Some((vm2, outs)) => Some((vm2, [out] + outs))
  }

  /**
    Page-table refinement: over any run, on any number of address spaces, the trees hold
    exactly what the flat machine holds and every `get_mapping` answers as it does.
   */
  lemma {:induction false} RunRefines(vm: Vm, r: Flats, ops: seq<Op>)
    requires Refines(vm, r) && Run(vm, ops).Some?
    ensures var (vm', outs) := Run(vm, ops).value;
      var (r', outs') := RefRun(r, ops);
      Refines(vm', r') && outs == outs'
    decreases |ops|
  {
    if ops != [] {
      StepRefines(vm, r, ops[0]);
      RunRefines(Step(vm, ops[0]).value.0, RefStep(r, ops[0]).0, ops[1..]);
    }
  }

  lemma InvBound(s: Sys, roots: seq<nat>)
    requires Inv(s, roots)
    ensures |s.free| <= MAX_FRAMES
  {
  }

  /** A run followed by one more operation, and its answer. */
  lemma {:induction false} RunAppend(vm: Vm, ops: seq<Op>, op: Op)
    requires Inv(vm.s, vm.roots)
    ensures Run(vm, []) == Some((vm, []))
    ensures Run(vm, ops + [op]) ==
      match Run(vm, ops)
      case None => None
      case Some((vm1, outs)) =>
        match Step(vm1, op)
        case None => None
        case Some((vm2, out)) => Some((vm2, outs + [out]))
    decreases |ops|
  {
    hide FreeOk, TablesOk, OnePath, Step;
    assert |vm.s.free| <= MAX_FRAMES by { InvBound(vm.s, vm.roots); }
    if ops == [] {
      assert ops + [op] == [op];
      assert [op][1..] == [];
      if Step(vm, op).Some? {
        StepKeepsInv(vm, op);
        assert [] + [Step(vm, op).value.1] == [Step(vm, op).value.1] + [];
      }
    } else {
      assert (ops + [op])[1..] == ops[1..] + [op];
      if Step(vm, ops[0]).Some? {
        StepKeepsInv(vm, ops[0]);
        RunAppend(Step(vm, ops[0]).value.0, ops[1..], op);
        assert forall out: u64, outs, more: seq<u64> :: [out] + (outs + more) == ([out] + outs) + more;
      }
    }
  }

  lemma {:induction false} EmptyTree(m: seq<u64>, root: nat, path: seq<nat>)
    requires ValidPath(path) && forall i :: 0 <= i < 512 ==> Entry(m, root, i) == 0
    ensures TableAt(m, root, path) == if path == [] then Some(root) else None
    decreases |path|
  {
    if path != [] {
      FrontValid(path);
      EmptyTree(m, root, Front(path));
      assert !Present(0);
    }
  }

  /** A zeroed root frame that is not free is where every run can start: it holds no mapping and meets the invariant. */
  lemma FirstSpace(s: Sys, root: nat)
    requires FreeOk(s) && TableOk(s, root) && forall i :: 0 <= i < 512 ==> Entry(s.mem, root, i) == 0
    ensures Inv(s, [root]) && forall n :: 0 <= n < PAGES ==> Flat(s.mem, root, n) == 0
  {
    forall t, p | 0 <= t < 1 ensures TableOkAt(s, [root], t, p) {
      if ValidPath(p) {
        EmptyTree(s.mem, root, p);
      }
    }
    forall t, p, t', p' | 0 <= t < 1 && 0 <= t' < 1 ensures OnePathAt(s, [root], t, p, t', p') {
      if ValidPath(p) && ValidPath(p') {
        EmptyTree(s.mem, root, p);
        EmptyTree(s.mem, root, p');
      }
    }
    forall n | 0 <= n < PAGES ensures Flat(s.mem, root, n) == 0 {
      EmptyTree(s.mem, root, Dir(n));
    }
  }

  // -------- what the refinement says about single mappings --------

  /**
    `map_page` on one space, seen from any space `u` at any page `n`: the page reads back
    as address-or-flags where `u` has the same owner, and everything else is as before.
   */
  lemma MapThenGet(vm: Vm, t: nat, virt: u64, phys: u64, flags: u64, u: nat, n: nat)
    requires Inv(vm.s, vm.roots) && t < |vm.roots| && u < |vm.roots| && n < PAGES
    requires Step(vm, Map(t, virt, phys, flags)).Some?
    ensures Flat(Step(vm, Map(t, virt, phys, flags)).value.0.s.mem, vm.roots[u], n) ==
      if n == PageNo(virt) && Owner(vm.s.mem, vm.roots, u, Dir(n)) == Owner(vm.s.mem, vm.roots, t, Dir(n))
      then Or(phys, flags) else Flat(vm.s.mem, vm.roots[u], n)
  {
    var r, op := Abstraction(vm), Map(t, virt, phys, flags);
    AbstractionRefines(vm);
    StepRefines(vm, r, op);
    HomeIsOwner(vm, r, u, n);
    HomeIsOwner(vm, r, t, n);
    assert Read(r, u, n) == Flat(vm.s.mem, vm.roots[u], n);
    assert Read(RefStep(r, op).0, u, n) == Flat(Step(vm, op).value.0.s.mem, vm.roots[u], n);
  }

  /** `get_mapping` answers the flat view and, though it may allocate tables, changes it nowhere. */
  lemma GetChangesNothing(vm: Vm, t: nat, virt: u64, u: nat, n: nat)
    requires Inv(vm.s, vm.roots) && t < |vm.roots| && u < |vm.roots| && n < PAGES
    requires Step(vm, Get(t, virt)).Some?
    ensures Step(vm, Get(t, virt)).value.1 == Flat(vm.s.mem, vm.roots[t], PageNo(virt))
    ensures Flat(Step(vm, Get(t, virt)).value.0.s.mem, vm.roots[u], n) == Flat(vm.s.mem, vm.roots[u], n)
  {
    var r, op := Abstraction(vm), Get(t, virt);
    AbstractionRefines(vm);
    StepRefines(vm, r, op);
    assert Read(r, t, PageNo(virt)) == Flat(vm.s.mem, vm.roots[t], PageNo(virt));
    assert Read(r, u, n) == Flat(vm.s.mem, vm.roots[u], n);
    assert Read(RefStep(r, op).0, u, n) == Flat(Step(vm, op).value.0.s.mem, vm.roots[u], n);
  }

  /**
    Every word of memory after an operation. `map_page` stores address-or-flags in the leaf
    entry; it and `get_mapping` otherwise only turn absent entries into table entries, and
    zero the frames they take. A new root holds the kernel's entries 256 and 511, and zeroes.
   */
  lemma StepWords(vm: Vm, op: Op, h: nat, j: nat)
    requires Inv(vm.s, vm.roots) && Step(vm, op).Some? && j < 512
    ensures var vm' := Step(vm, op).value.0;
      match op
      case Map(t, v, p, f) =>
        && vm'.roots == vm.roots
        && (t >= |vm.roots| ==> vm' == vm)
        && (t < |vm.roots| ==>
              if TableAt(vm'.s.mem, vm.roots[t], Dir(PageNo(v))) == Some(h) && j == Leaf(PageNo(v))
              then Entry(vm'.s.mem, h, j) == Or(p, f) else Linking(vm.s, vm'.s, h, j))
      case Get(t, v) => vm'.roots == vm.roots && (t >= |vm.roots| ==> vm' == vm) && (t < |vm.roots| ==> Linking(vm.s, vm'.s, h, j))
      case New =>
        var g := vm'.roots[|vm'.roots| - 1];
        && vm'.roots == vm.roots + [g] && NewFrame(vm.s, vm'.s, g)
        && Entry(vm'.s.mem, h, j) == if h != g then Entry(vm.s.mem, h, j) else if j == 256 || j == 511 then Entry(vm.s.mem, vm.roots[0], j) else 0
  {
    hide Walk, Linking, Grows, OnePath, PageNo, Dir, Leaf, Or;
    match op
    case Map(t, v, p, f) =>
      if t < |vm.roots| {
        WalkLinks(vm.s, vm.roots, t, Dir(PageNo(v)), h, j);
        MapWord(vm, t, PageNo(v), OrWord(p, f), h, j);
      }
    case Get(t, v) =>
      if t < |vm.roots| {
        WalkLinks(vm.s, vm.roots, t, Dir(PageNo(v)), h, j);
      }
    case New => NewWords(vm, h, j);
  }

  lemma MapWord(vm: Vm, t: nat, n: nat, v: u64, h: nat, j: nat)
    requires Inv(vm.s, vm.roots) && t < |vm.roots| && n < PAGES && j < 512 && Walk(vm.s, vm.roots[t], Dir(n)).Some?
    ensures var s1, s' := Walk(vm.s, vm.roots[t], Dir(n)).value.0, MapPage(vm.s, vm.roots[t], n, v).value;
      && s'.free == s1.free
      && Entry(s'.mem, h, j) == (if TableAt(s'.mem, vm.roots[t], Dir(n)) == Some(h) && j == Leaf(n) then v else Entry(s1.mem, h, j))
      && (Linking(vm.s, s1, h, j) && Entry(s'.mem, h, j) == Entry(s1.mem, h, j) ==> Linking(vm.s, s', h, j))
  {
    var (s1, f) := Walk(vm.s, vm.roots[t], Dir(n)).value;
    WalkKeeps(vm.s, vm.roots, t, Dir(n));
    assert TableOkAt(s1, vm.roots, t, Dir(n));
    LeafKeepsTable(LeafWrite(s1, vm.roots, t, Dir(n), f, Leaf(n), v), t, Dir(n));
    EntryOfPut(s1.mem, f, Leaf(n), v, h, j);
    var s' := MapPage(vm.s, vm.roots[t], n, v).value;
    assert forall g: nat :: NewFrame(vm.s, s', g) == NewFrame(vm.s, s1, g);
  }

  lemma NewWords(vm: Vm, h: nat, j: nat)
    requires Inv(vm.s, vm.roots) && j < 512 && NewSpace(vm.s, vm.roots[0]).Some?
    ensures var (s', g) := NewSpace(vm.s, vm.roots[0]).value;
      && NewFrame(vm.s, s', g)
      && Entry(s'.mem, h, j) == if h != g then Entry(vm.s.mem, h, j) else if j == 256 || j == 511 then Entry(vm.s.mem, vm.roots[0], j) else 0
  {
    var (s1, g) := Calloc(vm.s).value;
    var k := vm.roots[0];
    assert TableOkAt(vm.s, vm.roots, 0, []) && k != g;
    EntryOfFill(vm.s.mem, g, h, j);
    EntryOfFill(vm.s.mem, g, k, 256);
    EntryOfFill(vm.s.mem, g, k, 511);
    var m1 := Put(s1.mem, g, 256, Entry(s1.mem, k, 256));
    EntryOfPut(s1.mem, g, 256, Entry(s1.mem, k, 256), h, j);
    EntryOfPut(s1.mem, g, 256, Entry(s1.mem, k, 256), k, 511);
    EntryOfPut(m1, g, 511, Entry(m1, k, 511), h, j);
  }

  /** Over any run a table frame is never free, lies below 2^47, and has one owner and one path. */
  lemma TablesOwned(vm: Vm, ops: seq<Op>, t: nat, p: seq<nat>, t': nat, p': seq<nat>)
    requires Inv(vm.s, vm.roots) && Run(vm, ops).Some? && ValidPath(p) && ValidPath(p')
    requires var vm' := Run(vm, ops).value.0;
      && t < |vm'.roots| && t' < |vm'.roots|
      && TableAt(vm'.s.mem, vm'.roots[t], p).Some?
    ensures var vm' := Run(vm, ops).value.0;
      var f := TableAt(vm'.s.mem, vm'.roots[t], p).value;
      && f * PAGE_SIZE < PHYS_LIMIT && !(f < |vm'.s.free| && vm'.s.free[f])
      && (TableAt(vm'.s.mem, vm'.roots[t'], p') == Some(f) ==>
            p == p' && (t == t' || (p != [] && SharedSlot(p[0]) && Owner(vm'.s.mem, vm'.roots, t, p) == 0 == Owner(vm'.s.mem, vm'.roots, t', p))))
  {
    var vm' := Run(vm, ops).value.0;
    assert TableOkAt(vm'.s, vm'.roots, t, p) && OnePathAt(vm'.s, vm'.roots, t, p, t', p');
  }

  // -------- the shared kernel half --------

  lemma {:induction false} RefRunKeepsLinks(r: Flats, ops: seq<Op>)
    requires |r.maps| > 0
    ensures |RefRun(r, ops).0.maps| >= |r.maps| && r.links <= RefRun(r, ops).0.links
    decreases |ops|
  {
    if ops != [] {
      RefRunKeepsLinks(RefStep(r, ops[0]).0, ops[1..]);
    }
  }

  /** Once linked, a space and the kernel agree on every page under the slot, whatever either maps later. */
  lemma KernelHalfAgrees(vm: Vm, t: nat, n: nat, ops: seq<Op>)
    requires Inv(vm.s, vm.roots) && t < |vm.roots| && n < PAGES && Linked(vm.s.mem, vm.roots, t, Slot(n))
    requires Run(vm, ops).Some?
    ensures var vm' := Run(vm, ops).value.0;
      t < |vm'.roots| && Flat(vm'.s.mem, vm'.roots[t], n) == Flat(vm'.s.mem, vm'.roots[0], n)
  {
    var r, vm' := Abstraction(vm), Run(vm, ops).value.0;
    AbstractionRefines(vm);
    RunRefines(vm, r, ops);
    var r' := RefRun(r, ops).0;
    RefRunKeepsLinks(r, ops);
    SlotOf(n);
    assert (t, Slot(n)) in r.links;
    assert Read(r', t, n) == Flat(vm'.s.mem, vm'.roots[t], n) && Read(r', 0, n) == Flat(vm'.s.mem, vm'.roots[0], n);
  }

  predicate Concerns(op: Op, t: nat) {
    !op.New? && op.t == t
  }

  /** No other space reads or writes page `n` of space `t`. */
  ghost predicate Private(r: Flats, t: nat, n: nat) {
    t < |r.maps| && (t, Slot(n)) !in r.links && (t == 0 ==> forall u :: (u, Slot(n)) !in r.links)
  }

  lemma StepElsewhere(r: Flats, op: Op, t: nat, n: nat)
    requires |r.maps| > 0 && Private(r, t, n) && (t == 0 ==> !SharedSlot(Slot(n))) && !Concerns(op, t)
    ensures Private(RefStep(r, op).0, t, n) && Read(RefStep(r, op).0, t, n) == Read(r, t, n)
  {
  }

  lemma {:induction false} RunElsewhere(r: Flats, ops: seq<Op>, t: nat, n: nat)
    requires |r.maps| > 0 && Private(r, t, n) && (t == 0 ==> !SharedSlot(Slot(n)))
    requires forall k :: 0 <= k < |ops| ==> !Concerns(ops[k], t)
    ensures Private(RefRun(r, ops).0, t, n) && Read(RefRun(r, ops).0, t, n) == Read(r, t, n)
    decreases |ops|
  {
    if ops != [] {
      StepElsewhere(r, ops[0], t, n);
      RunElsewhere(RefStep(r, ops[0]).0, ops[1..], t, n);
    }
  }

  /**
    A page of space `t` that is not under a linked slot (and, in the kernel's own space, not
    under a slot that others may link) is as it was after any run that does not name `t`.
   */
  lemma OtherSpacesApart(vm: Vm, ops: seq<Op>, t: nat, n: nat)
    requires Inv(vm.s, vm.roots) && Run(vm, ops).Some? && t < |vm.roots| && n < PAGES
    requires !Linked(vm.s.mem, vm.roots, t, Slot(n)) && (t == 0 ==> !SharedSlot(Slot(n)))
    requires forall k :: 0 <= k < |ops| ==> !Concerns(ops[k], t)
    ensures var vm' := Run(vm, ops).value.0;
      t < |vm'.roots| && Flat(vm'.s.mem, vm'.roots[t], n) == Flat(vm.s.mem, vm.roots[t], n)
  {
    var r, vm' := Abstraction(vm), Run(vm, ops).value.0;
    AbstractionRefines(vm);
    RunRefines(vm, r, ops);
    SlotOf(n);
    RunElsewhere(r, ops, t, n);
    assert Read(r, t, n) == Flat(vm.s.mem, vm.roots[t], n);
    assert Read(RefRun(r, ops).0, t, n) == Flat(vm'.s.mem, vm'.roots[t], n);
  }

  /** A new space is linked under a shared slot exactly when the kernel already has a table there. */
  lemma NewLinkedIff(vm: Vm, i: nat)
    requires Inv(vm.s, vm.roots) && Step(vm, New).Some? && i < 512
    ensures var vm' := Step(vm, New).value.0;
      Linked(vm'.s.mem, vm'.roots, |vm.roots|, i) <==> SharedSlot(i) && TableAt(vm.s.mem, vm.roots[0], [i]).Some?
  {
    var (s', g) := NewSpace(vm.s, vm.roots[0]).value;
    BirthLinked(Birth(vm.s, s', vm.roots, g), |vm.roots|, i);
  }

  /** Without that table the halves part at the kernel's first mapping under the slot. */
  lemma UnlinkedDiverges(vm: Vm, virt: u64, phys: u64, flags: u64)
    requires Inv(vm.s, vm.roots) && Step(vm, New).Some?
    requires TableAt(vm.s.mem, vm.roots[0], [Slot(PageNo(virt))]) == None && Or(phys, flags) != 0
    requires var vm1 := Step(vm, New).value.0;
      |vm1.s.free| <= MAX_FRAMES && |vm1.roots| > 0 && Step(vm1, Map(0, virt, phys, flags)).Some?
    ensures var vm1 := Step(vm, New).value.0;
      var vm2 := Step(vm1, Map(0, virt, phys, flags)).value.0;
      && |vm2.roots| == |vm.roots| + 1
      && Flat(vm2.s.mem, vm2.roots[0], PageNo(virt)) != 0 == Flat(vm2.s.mem, vm2.roots[|vm.roots|], PageNo(virt))
  {
    var n, t := PageNo(virt), |vm.roots|;
    var (s', g) := NewSpace(vm.s, vm.roots[0]).value;
    var b := Birth(vm.s, s', vm.roots, g);
    BirthKeepsInv(b);
    BirthLinked(b, t, Slot(n));
    BirthFlat(b, t, n);
    SlotOf(n);
    if TableAt(vm.s.mem, vm.roots[0], Dir(n)).Some? {
      PrefixPresent(vm.s.mem, vm.roots[0], Dir(n));
      assert false;
    }
    MapThenGet(Vm(s', vm.roots + [g]), 0, virt, phys, flags, 0, n);
    MapThenGet(Vm(s', vm.roots + [g]), 0, virt, phys, flags, t, n);
  }
}
