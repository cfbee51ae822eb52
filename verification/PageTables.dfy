/**
  The page-table tree of src/mm/vmm.rs as a function of memory: four levels of
  512-entry tables held in physical frames (4-level paging, section 4.5 of the Intel
  SDM, Volume 3A).  Memory is a sequence of 64-bit words; frame `f` holds words
  `512 * f` to `512 * f + 511`.
 */
module PageTables {
  import opened Arith
  import opened Bits
  import opened Options
  import opened Sequences
  import opened PhysAddr
  import opened PmmSpec

  // -------- addresses --------

  function Pml4(v: u64): nat { And(v / 0x80_0000_0000, 0x1ff) }
  function Pdp(v: u64): nat { And(v / 0x4000_0000, 0x1ff) }
  function Pd(v: u64): nat { And(v / 0x20_0000, 0x1ff) }
  function Pt(v: u64): nat { And(v / 0x1000, 0x1ff) }

  const PAGES: nat := 0x10_0000_0000

  /** Bits 12 to 47 of an address. */
  function PageNo(v: u64): (n: nat)
    ensures n < PAGES
  {
    v / 0x1000 % PAGES
  }

  /** The three table indices leading to the page's table. */
  function Dir(n: nat): (p: seq<nat>)
    requires n < PAGES
    ensures ValidPath(p) && |p| == 3
  {
    [n / 0x800_0000, n / 0x4_0000 % 512, n / 512 % 512]
  }

  function Leaf(n: nat): (i: nat)
    ensures i < 512
  {
    n % 512
  }

  lemma DirInjective(m: nat, n: nat)
    requires m < PAGES && n < PAGES && Dir(m) == Dir(n) && Leaf(m) == Leaf(n)
    ensures m == n
  {
    assert Dir(m)[0] == Dir(n)[0] && Dir(m)[1] == Dir(n)[1] && Dir(m)[2] == Dir(n)[2];
    DirSum(m);
    DirSum(n);
  }

  lemma DirSum(n: nat)
    requires n < PAGES
    ensures n == Dir(n)[0] * 0x800_0000 + Dir(n)[1] * 0x4_0000 + Dir(n)[2] * 512 + Leaf(n)
  {
    assert n / 0x4_0000 == n / 512 / 512 && n / 0x800_0000 == n / 0x4_0000 / 512;
  }

  lemma NineBits(x: nat)
    ensures And(x, 0x1ff) == x % 512
  {
    assert Pow2(9) == 512;
    AndLowMask(x, 9);
  }

  /** The four masked shifts of an address spell out its page number. */
  lemma IndicesOfPage(v: u64)
    ensures [Pml4(v), Pdp(v), Pd(v)] == Dir(PageNo(v))
    ensures Pt(v) == Leaf(PageNo(v))
  {
    NineBits(v / 0x80_0000_0000);
    NineBits(v / 0x4000_0000);
    NineBits(v / 0x20_0000);
    NineBits(v / 0x1000);
    var w := v / 0x1000;
    assert v / 0x80_0000_0000 == w / 0x800_0000 && v / 0x4000_0000 == w / 0x4_0000 && v / 0x20_0000 == w / 512;
    ModDiv(w);
  }

  lemma ModDiv(w: nat)
    ensures w % PAGES / 0x800_0000 == w / 0x800_0000 % 512
    ensures w % PAGES / 0x4_0000 % 512 == w / 0x4_0000 % 512
    ensures w % PAGES / 512 % 512 == w / 512 % 512
    ensures w % PAGES % 512 == w % 512
  {
    ModDivBy(w, 0x800_0000, 512);
    ModDivBy(w, 0x4_0000, 0x4_0000);
    ModDivBy(w, 512, 0x800_0000);
    var q, n := w / PAGES, w % PAGES;
    DivModUnique(w, 512, q * 0x800_0000 + n / 512, n % 512);
  }

  lemma ModDivBy(w: nat, d: nat, e: nat)
    requires d > 0 && e > 0 && d * e == PAGES && e % 512 == 0
    ensures w % PAGES / d % 512 == w / d % 512 && w % PAGES / d < e
  {
    var q, n := w / PAGES, w % PAGES;
    DivOfSum(q, d, e, n);
    ModOfSum(q, e, n / d);
  }

  lemma DivOfSum(q: nat, d: nat, e: nat, n: nat)
    requires d > 0 && e > 0 && n < d * e
    ensures (d * e * q + n) / d == e * q + n / d && n / d < e
  {
    var a := n / d;
    assert n == d * a + n % d;
    MulDist(d, e * q, a);
    assert d * e * q == d * (e * q);
    DivModUnique(d * e * q + n, d, e * q + a, n % d);
    if a >= e {
      MulMono(d, e, a);
      assert false;
    }
  }

  lemma ModOfSum(q: nat, e: nat, a: nat)
    requires e % 512 == 0
    ensures (e * q + a) % 512 == a % 512
  {
    var b := e / 512;
    assert e == 512 * b && e * q == 512 * (b * q);
    DivModUnique(e * q + a, 512, b * q + a / 512, a % 512);
  }

  // -------- memory --------

  datatype Sys = Sys(mem: seq<u64>, free: seq<bool>)

  function Entry(m: seq<u64>, f: nat, i: nat): u64 {
    if f * 512 + i < |m| then m[f * 512 + i] else 0
  }

  function Put(m: seq<u64>, f: nat, i: nat, v: u64): (r: seq<u64>)
    ensures |r| == |m|
  {
    if f * 512 + i < |m| then m[f * 512 + i := v] else m
  }

  predicate Present(e: u64) {
    And(e, 1) != 0
  }

  predicate ValidPath(p: seq<nat>) {
    |p| <= 3 && forall k :: 0 <= k < |p| ==> p[k] < 512
  }

  function Front(p: seq<nat>): seq<nat>
    requires p != []
  {
    p[..|p| - 1]
  }

  function Last(p: seq<nat>): nat
    requires p != []
  {
    p[|p| - 1]
  }

  /** The frame of the table reached from `root` by following present entries along `path`. */
  function TableAt(m: seq<u64>, root: nat, path: seq<nat>): Option<nat>
    decreases |path|
  {
    if path == [] then Some(root)
    else
      match TableAt(m, root, Front(path))
      case None => None
      case Some(f) =>
        var e := Entry(m, f, Last(path));
        if Present(e) then Some(RemoveFlags(e) / PAGE_SIZE) else None
  }

  /** The flat view: what the tree holds for each page number; 0 where no table exists. */
  function Flat(m: seq<u64>, root: nat, n: nat): u64
    requires n < PAGES
  {
    match TableAt(m, root, Dir(n))
    case None => 0
    case Some(f) => Entry(m, f, Leaf(n))
  }

  // -------- the operations --------

  const TABLE_FLAGS: u64 := 7  // PRESENT | WRITABLE | USERMODE

  function TableEntry(frame: nat): (e: u64)
    requires frame < MAX_FRAMES
    ensures Present(e) && RemoveFlags(e) / PAGE_SIZE == frame && e == frame * 4096 + 7
  {
    hide And, Or, RemoveFlags;
    OrFlags(frame, TABLE_FLAGS);
    FlagsRoundTrip(frame, TABLE_FLAGS);
    DivModUnique(frame * PAGE_SIZE, PAGE_SIZE, frame, 0);
    Or(frame * PAGE_SIZE, TABLE_FLAGS)
  }

  /** `calloc(1)`. */
  function Calloc(s: Sys): (r: Option<(Sys, nat)>)
    ensures r.Some? ==> r.value.1 < |s.free| && s.free[r.value.1]
  {
    match Find(s.free, 1)
    case None => None
    case Some(g) => Some((Sys(Fill(s.mem, g * 512, 512, 0), Fill(s.free, g, 1, false)), g))
  }

  function NextLevel(s: Sys, f: nat, i: nat): (r: Option<(Sys, nat)>)
    requires |s.free| <= MAX_FRAMES
    ensures r.Some? ==> |r.value.0.free| == |s.free| && |r.value.0.mem| == |s.mem|
  {
    var e := Entry(s.mem, f, i);
    if Present(e) then Some((s, RemoveFlags(e) / PAGE_SIZE))
    else
      match Calloc(s)
      case None => None
      case Some((s1, g)) => Some((s1.(mem := Put(s1.mem, f, i, TableEntry(g))), g))
  }

  function Walk(s: Sys, root: nat, path: seq<nat>): (r: Option<(Sys, nat)>)
    requires |s.free| <= MAX_FRAMES
    ensures r.Some? ==> |r.value.0.free| == |s.free| && |r.value.0.mem| == |s.mem|
    decreases |path|
  {
    if path == [] then Some((s, root))
    else
      match Walk(s, root, Front(path))
      case None => None
      case Some((s1, f)) => NextLevel(s1, f, Last(path))
  }

  function MapPage(s: Sys, root: nat, n: nat, v: u64): (r: Option<Sys>)
    requires |s.free| <= MAX_FRAMES && n < PAGES
  {
    match Walk(s, root, Dir(n))
    case None => None
    case Some((s1, f)) => Some(s1.(mem := Put(s1.mem, f, Leaf(n), v)))
  }

  function GetMapping(s: Sys, root: nat, n: nat): (r: Option<(Sys, u64)>)
    requires |s.free| <= MAX_FRAMES && n < PAGES
  {
    match Walk(s, root, Dir(n))
    case None => None
    case Some((s1, f)) => Some((s1, Entry(s1.mem, f, Leaf(n))))
  }

  predicate SharedSlot(i: nat) {
    i == 256 || i == 511
  }

  /** `VirtualMemManager::new(true)`: a fresh root with the kernel's two slots copied in. */
  function NewSpace(s: Sys, kernel: nat): (r: Option<(Sys, nat)>)
    requires |s.free| <= MAX_FRAMES
  {
    match Calloc(s)
    case None => None
    case Some((s1, g)) =>
      var m1 := Put(s1.mem, g, 256, Entry(s1.mem, kernel, 256));
      Some((s1.(mem := Put(m1, g, 511, Entry(m1, kernel, 511))), g))
  }

  // -------- the invariant --------

  ghost predicate TableOk(s: Sys, f: nat) {
    f < MAX_FRAMES && (f + 1) * 512 <= |s.mem| && !(f < |s.free| && s.free[f])
  }

  ghost predicate FreeOk(s: Sys) {
    |s.free| <= MAX_FRAMES && forall f :: 0 <= f < |s.free| && s.free[f] ==> (f + 1) * 512 <= |s.mem|
  }

  /** Space `t` has the kernel's own table under shared slot `i`. */
  ghost predicate Linked(m: seq<u64>, roots: seq<nat>, t: nat, i: nat)
    requires t < |roots|
  {
    && t > 0 && SharedSlot(i)
    && TableAt(m, roots[0], [i]).Some?
    && TableAt(m, roots[t], [i]) == TableAt(m, roots[0], [i])
  }

  /** The space that owns the table `t` reaches along `p`: the kernel's, under a linked slot. */
  ghost function Owner(m: seq<u64>, roots: seq<nat>, t: nat, p: seq<nat>): nat
    requires t < |roots|
  {
    if p != [] && Linked(m, roots, t, p[0]) then 0 else t
  }

  ghost predicate TableOkAt(s: Sys, roots: seq<nat>, t: nat, p: seq<nat>)
    requires t < |roots|
  {
    ValidPath(p) && TableAt(s.mem, roots[t], p).Some? ==> TableOk(s, TableAt(s.mem, roots[t], p).value)
  }

  ghost predicate TablesOk(s: Sys, roots: seq<nat>) {
    forall t, p :: 0 <= t < |roots| ==> TableOkAt(s, roots, t, p)
  }

  ghost predicate OnePathAt(s: Sys, roots: seq<nat>, t: nat, p: seq<nat>, t': nat, p': seq<nat>)
    requires t < |roots| && t' < |roots|
  {
    (&& ValidPath(p) && ValidPath(p')
     && TableAt(s.mem, roots[t], p).Some? && TableAt(s.mem, roots[t], p) == TableAt(s.mem, roots[t'], p'))
    ==> (p == p' && Owner(s.mem, roots, t, p) == Owner(s.mem, roots, t', p'))
  }

  /** A frame is a table of one owner, along one path. */
  ghost predicate OnePath(s: Sys, roots: seq<nat>) {
    forall t, p, t', p' :: 0 <= t < |roots| && 0 <= t' < |roots| ==> OnePathAt(s, roots, t, p, t', p')
  }

  ghost predicate Inv(s: Sys, roots: seq<nat>) {
    |roots| > 0 && FreeOk(s) && TablesOk(s, roots) && OnePath(s, roots)
  }

  // -------- adding one table --------

  lemma EntryOfPut(m: seq<u64>, f: nat, i: nat, v: u64, h: nat, j: nat)
    requires i < 512 && j < 512 && (f + 1) * 512 <= |m|
    ensures Entry(Put(m, f, i, v), h, j) == if h == f && j == i then v else Entry(m, h, j)
  {
  }

  lemma EntryOfFill(m: seq<u64>, g: nat, h: nat, j: nat)
    requires j < 512
    ensures Entry(Fill(m, g * 512, 512, 0), h, j) == if h == g then 0 else Entry(m, h, j)
  {
  }

  /** `path` is the edge that leads to entry `i` of table `f`. */
  ghost predicate IsEdge(m: seq<u64>, root: nat, path: seq<nat>, f: nat, i: nat) {
    path != [] && TableAt(m, root, Front(path)) == Some(f) && Last(path) == i
  }

  /**
    One table added: the free frame `g`, zeroed, goes under the absent entry `i` of table
    `f`, which space `t` reaches along `p`.
   */
  datatype Graft = Graft(s: Sys, s': Sys, roots: seq<nat>, t: nat, p: seq<nat>, f: nat, i: nat, g: nat)

  ghost predicate Grafted(a: Graft) {
    && Inv(a.s, a.roots)
    && a.t < |a.roots| && ValidPath(a.p) && |a.p| <= 2 && a.i < 512
    && TableAt(a.s.mem, a.roots[a.t], a.p) == Some(a.f) && !Present(Entry(a.s.mem, a.f, a.i))
    && a.g < |a.s.free| && a.s.free[a.g]
    && a.s'.mem == Put(Fill(a.s.mem, a.g * 512, 512, 0), a.f, a.i, TableEntry(a.g))
    && a.s'.free == Fill(a.s.free, a.g, 1, false)
  }

  lemma EntryAfter(a: Graft, h: nat, j: nat)
    requires Grafted(a) && j < 512
    ensures Entry(a.s'.mem, h, j) ==
      if h == a.f && j == a.i then TableEntry(a.g) else if h == a.g then 0 else Entry(a.s.mem, h, j)
  {
    assert TableOkAt(a.s, a.roots, a.t, a.p);
    EntryOfFill(a.s.mem, a.g, h, j);
    EntryOfPut(Fill(a.s.mem, a.g * 512, 512, 0), a.f, a.i, TableEntry(a.g), h, j);
  }

  lemma FrontValid(path: seq<nat>)
    requires path != [] && ValidPath(path)
    ensures ValidPath(Front(path)) && Last(path) < 512 && path == Front(path) + [Last(path)]
  {
  }

  lemma {:induction false} TableAtAfter(a: Graft, u: nat, path: seq<nat>)
    requires Grafted(a) && u < |a.roots| && ValidPath(path)
    ensures TableAt(a.s'.mem, a.roots[u], path) ==
      if IsEdge(a.s.mem, a.roots[u], path, a.f, a.i) then Some(a.g) else TableAt(a.s.mem, a.roots[u], path)
    decreases |path|
  {
    if path != [] {
      var p, j := Front(path), Last(path);
      FrontValid(path);
      TableAtAfter(a, u, p);
      if IsEdge(a.s.mem, a.roots[u], p, a.f, a.i) {
        assert TableOkAt(a.s, a.roots, a.t, a.p);
        EntryAfter(a, a.g, j);
        assert !Present(0);
      } else if TableAt(a.s.mem, a.roots[u], p).Some? {
        var h := TableAt(a.s.mem, a.roots[u], p).value;
        assert TableOkAt(a.s, a.roots, u, p);
        EntryAfter(a, h, j);
      }
    }
  }

  lemma GraftTablesOk(a: Graft)
    requires Grafted(a)
    ensures FreeOk(a.s') && TablesOk(a.s', a.roots)
  {
    forall u, q: seq<nat> | 0 <= u < |a.roots| ensures TableOkAt(a.s', a.roots, u, q) {
      if ValidPath(q) {
        TableAtAfter(a, u, q);
        assert TableOkAt(a.s, a.roots, u, q);
      }
    }
  }

  /** Of the first-level tables at most one is new, and only below `t`'s own root. */
  lemma GraftFirstLevel(a: Graft, u: nat, j: nat)
    requires Grafted(a) && u < |a.roots| && j < 512
    ensures TableAt(a.s'.mem, a.roots[u], [j]) ==
      if a.p == [] && u == a.t && j == a.i then Some(a.g) else TableAt(a.s.mem, a.roots[u], [j])
  {
    TableAtAfter(a, u, [j]);
    assert Front([j]) == [] && Last([j]) == j;
    assert TableAt(a.s.mem, a.roots[u], []) == Some(a.roots[u]);
    assert OnePathAt(a.s, a.roots, u, [], a.t, a.p);
    if a.roots[u] == a.f {
      assert Owner(a.s.mem, a.roots, u, []) == u && Owner(a.s.mem, a.roots, a.t, []) == a.t;
    }
  }

  lemma GraftLinked(a: Graft, u: nat, j: nat)
    requires Grafted(a) && u < |a.roots| && j < 512
    ensures Linked(a.s'.mem, a.roots, u, j) == Linked(a.s.mem, a.roots, u, j)
  {
    GraftFirstLevel(a, u, j);
    GraftFirstLevel(a, 0, j);
    assert Front([j]) == [];
    if a.p == [] && j == a.i {
      assert TableAt(a.s.mem, a.roots[a.t], [j]) == None;
    }
    assert ValidPath([j]) && TableOkAt(a.s, a.roots, u, [j]) && TableOkAt(a.s, a.roots, 0, [j]);
  }

  lemma GraftOwner(a: Graft, u: nat, q: seq<nat>)
    requires Grafted(a) && u < |a.roots| && ValidPath(q)
    ensures Owner(a.s'.mem, a.roots, u, q) == Owner(a.s.mem, a.roots, u, q)
  {
    if q != [] {
      GraftLinked(a, u, q[0]);
    }
  }

  lemma SameEdge(s: Sys, roots: seq<nat>, f: nat, i: nat, u: nat, q: seq<nat>, u': nat, q': seq<nat>)
    requires OnePath(s, roots) && u < |roots| && u' < |roots| && ValidPath(q) && ValidPath(q')
    requires IsEdge(s.mem, roots[u], q, f, i) && IsEdge(s.mem, roots[u'], q', f, i)
    ensures q == q' && Owner(s.mem, roots, u, q) == Owner(s.mem, roots, u', q')
  {
    FrontValid(q);
    FrontValid(q');
    assert OnePathAt(s, roots, u, Front(q), u', Front(q'));
  }

  lemma GraftOnePathAt(a: Graft, u: nat, q: seq<nat>, u': nat, q': seq<nat>)
    requires Grafted(a) && u < |a.roots| && u' < |a.roots|
    ensures OnePathAt(a.s', a.roots, u, q, u', q')
  {
    if ValidPath(q) && ValidPath(q') {
      TableAtAfter(a, u, q);
      TableAtAfter(a, u', q');
      GraftOwner(a, u, q);
      GraftOwner(a, u', q');
      assert OnePathAt(a.s, a.roots, u, q, u', q') && TableOkAt(a.s, a.roots, u, q) && TableOkAt(a.s, a.roots, u', q');
      if IsEdge(a.s.mem, a.roots[u], q, a.f, a.i) && IsEdge(a.s.mem, a.roots[u'], q', a.f, a.i) {
        SameEdge(a.s, a.roots, a.f, a.i, u, q, u', q');
      }
    }
  }

  lemma GraftOnePath(a: Graft)
    requires Grafted(a)
    ensures OnePath(a.s', a.roots)
  {
    forall u, q: seq<nat>, u', q': seq<nat> | 0 <= u < |a.roots| && 0 <= u' < |a.roots|
      ensures OnePathAt(a.s', a.roots, u, q, u', q')
    {
      GraftOnePathAt(a, u, q, u', q');
    }
  }

  lemma GraftFlat(a: Graft, u: nat, n: nat)
    requires Grafted(a) && u < |a.roots| && n < PAGES
    ensures Flat(a.s'.mem, a.roots[u], n) == Flat(a.s.mem, a.roots[u], n)
  {
    TableAtAfter(a, u, Dir(n));
    var h := TableAt(a.s'.mem, a.roots[u], Dir(n));
    if h.Some? {
      assert OnePathAt(a.s, a.roots, u, Dir(n), a.t, a.p) && TableOkAt(a.s, a.roots, a.t, a.p) && TableOkAt(a.s, a.roots, u, Dir(n));
      assert h.value != a.f;
      EntryAfter(a, h.value, Leaf(n));
    }
  }

  // -------- what any number of added tables leave alone --------

  ghost predicate KeepsTables(m: seq<u64>, m': seq<u64>, roots: seq<nat>) {
    forall u, p :: 0 <= u < |roots| && ValidPath(p) && TableAt(m, roots[u], p).Some? ==>
      TableAt(m', roots[u], p) == TableAt(m, roots[u], p)
  }

  ghost predicate KeepsFlat(m: seq<u64>, m': seq<u64>, roots: seq<nat>) {
    forall u, n :: 0 <= u < |roots| && 0 <= n < PAGES ==> Flat(m', roots[u], n) == Flat(m, roots[u], n)
  }

  ghost predicate KeepsLinks(m: seq<u64>, m': seq<u64>, roots: seq<nat>) {
    forall u, i :: 0 <= u < |roots| && 0 <= i < 512 ==> Linked(m', roots, u, i) == Linked(m, roots, u, i)
  }

  /** No first-level table appears except `t`'s under `slot`. */
  ghost predicate OnlySlot(m: seq<u64>, m': seq<u64>, roots: seq<nat>, t: nat, slot: nat) {
    forall u, i :: 0 <= u < |roots| && 0 <= i < 512 && TableAt(m', roots[u], [i]).Some? ==>
      TableAt(m, roots[u], [i]).Some? || (u == t && i == slot)
  }

  ghost predicate Grows(m: seq<u64>, m': seq<u64>, roots: seq<nat>, t: nat, slot: nat) {
    KeepsTables(m, m', roots) && KeepsFlat(m, m', roots) && KeepsLinks(m, m', roots) && OnlySlot(m, m', roots, t, slot)
  }

  lemma GraftGrows(a: Graft)
    requires Grafted(a)
    ensures Grows(a.s.mem, a.s'.mem, a.roots, a.t, if a.p == [] then a.i else a.p[0])
  {
    forall u, q | 0 <= u < |a.roots| && ValidPath(q) && TableAt(a.s.mem, a.roots[u], q).Some?
      ensures TableAt(a.s'.mem, a.roots[u], q) == TableAt(a.s.mem, a.roots[u], q)
    {
      TableAtAfter(a, u, q);
    }
    forall u, n | 0 <= u < |a.roots| && 0 <= n < PAGES
      ensures Flat(a.s'.mem, a.roots[u], n) == Flat(a.s.mem, a.roots[u], n)
    {
      GraftFlat(a, u, n);
    }
    forall u, j | 0 <= u < |a.roots| && 0 <= j < 512
      ensures Linked(a.s'.mem, a.roots, u, j) == Linked(a.s.mem, a.roots, u, j)
    {
      GraftLinked(a, u, j);
    }
    forall u, j | 0 <= u < |a.roots| && 0 <= j < 512 && TableAt(a.s'.mem, a.roots[u], [j]).Some?
      ensures TableAt(a.s.mem, a.roots[u], [j]).Some? || (u == a.t && j == if a.p == [] then a.i else a.p[0])
    {
      GraftFirstLevel(a, u, j);
    }
  }

  /** Growth by one level of a walk: the invariant holds again and nothing already mapped moves. */
  lemma NextLevelKeeps(s: Sys, roots: seq<nat>, t: nat, p: seq<nat>, f: nat, i: nat)
    requires Inv(s, roots) && t < |roots| && ValidPath(p) && |p| <= 2 && i < 512
    requires TableAt(s.mem, roots[t], p) == Some(f)
    requires NextLevel(s, f, i).Some?
    ensures var (s', g) := NextLevel(s, f, i).value;
      && Inv(s', roots)
      && Grows(s.mem, s'.mem, roots, t, if p == [] then i else p[0])
      && TableAt(s'.mem, roots[t], p + [i]) == Some(g)
      && (!Present(Entry(s.mem, f, i)) ==> Entry(s'.mem, f, i) == g * 4096 + 7)
  {
    var (s', g) := NextLevel(s, f, i).value;
    assert Front(p + [i]) == p && Last(p + [i]) == i;
    assert TableOkAt(s, roots, t, p);
    if !Present(Entry(s.mem, f, i)) {
      var a := Graft(s, s', roots, t, p, f, i, g);
      GraftTablesOk(a);
      GraftOnePath(a);
      GraftGrows(a);
      assert ValidPath(p + [i]);
      TableAtAfter(a, t, p + [i]);
    }
  }

  /**
    One level of a walk, word by word: a present entry leads to the frame in its bits 12
    to 51 and nothing changes; an absent one becomes the lowest free frame, now zeroed and
    taken, with the flags PRESENT, WRITABLE and USERMODE, and no other word changes.
   */
  lemma NextLevelWords(s: Sys, f: nat, i: nat, h: nat, j: nat)
    requires FreeOk(s) && TableOk(s, f) && i < 512 && j < 512 && NextLevel(s, f, i).Some?
    ensures var (s', g) := NextLevel(s, f, i).value;
      if Entry(s.mem, f, i) % 2 == 1 then s' == s && g == Entry(s.mem, f, i) / 4096 % 0x100_0000_0000
      else
        && g < |s.free| && s.free[g] && (forall x :: 0 <= x < g ==> !s.free[x]) && s'.free == s.free[g := false]
        && Entry(s'.mem, h, j) == if h == f && j == i then g * 4096 + 7 else if h == g then 0 else Entry(s.mem, h, j)
  {
    hide And, RemoveFlags;
    LowBit(Entry(s.mem, f, i));
    RemoveFlagsIsFrame(Entry(s.mem, f, i));
    if !Present(Entry(s.mem, f, i)) {
      var g := Calloc(s).value.1;
      forall x | 0 <= x < g ensures !s.free[x] {
        assert !RunAt(s.free, x, 1);
      }
      EntryOfFill(s.mem, g, h, j);
      EntryOfPut(Fill(s.mem, g * 512, 512, 0), f, i, TableEntry(g), h, j);
    }
  }

  predicate NewFrame(s: Sys, s': Sys, h: nat) {
    h < |s.free| == |s'.free| && s.free[h] && !s'.free[h]
  }

  /** What word `j` of frame `h` was, and for a frame just taken, 0. */
  function Before(s: Sys, s': Sys, h: nat, j: nat): u64 {
    if NewFrame(s, s', h) then 0 else Entry(s.mem, h, j)
  }

  /** The word is as it was, or was an absent entry and now names a frame just taken. */
  ghost predicate Linking(s: Sys, s': Sys, h: nat, j: nat) {
    var before, now := Before(s, s', h, j), Entry(s'.mem, h, j);
    now == before || (before % 2 == 0 && exists g: nat :: NewFrame(s, s', g) && now == g * 4096 + 7)
  }

  ghost predicate Takes(s: Sys, s': Sys) {
    |s'.free| == |s.free| && forall x :: 0 <= x < |s.free| && s'.free[x] ==> s.free[x]
  }

  lemma LinkingTransitive(s: Sys, s1: Sys, s2: Sys, h: nat, j: nat)
    requires Takes(s, s1) && Takes(s1, s2) && Linking(s, s1, h, j) && Linking(s1, s2, h, j)
    ensures Takes(s, s2) && Linking(s, s2, h, j)
  {
    var before, between, now := Before(s, s2, h, j), Before(s1, s2, h, j), Entry(s2.mem, h, j);
    if now != between {
      var g: nat :| NewFrame(s1, s2, g) && now == g * 4096 + 7;
      assert NewFrame(s, s2, g);
    } else if Entry(s1.mem, h, j) != Before(s, s1, h, j) {
      var g: nat :| NewFrame(s, s1, g) && Entry(s1.mem, h, j) == g * 4096 + 7;
      assert NewFrame(s, s2, g);
    }
  }

  lemma NextLevelLinks(s: Sys, f: nat, i: nat, h: nat, j: nat)
    requires FreeOk(s) && TableOk(s, f) && i < 512 && j < 512 && NextLevel(s, f, i).Some?
    ensures var s' := NextLevel(s, f, i).value.0; Takes(s, s') && Linking(s, s', h, j)
  {
    hide NextLevel, Present;
    NextLevelWords(s, f, i, h, j);
    var (s', g) := NextLevel(s, f, i).value;
    if Entry(s.mem, f, i) % 2 == 0 {
      assert NewFrame(s, s', g);
    }
  }

  /** A whole walk, word by word. */
  lemma {:induction false} WalkLinks(s: Sys, roots: seq<nat>, t: nat, path: seq<nat>, h: nat, j: nat)
    requires Inv(s, roots) && t < |roots| && ValidPath(path) && j < 512 && Walk(s, roots[t], path).Some?
    ensures var s' := Walk(s, roots[t], path).value.0; Takes(s, s') && Linking(s, s', h, j)
    decreases |path|
  {
    hide NextLevel, Linking, Grows, OnePath;
    if path == [] {
      LinkingSelf(s, h, j);
    } else {
      var p, i := Front(path), Last(path);
      FrontValid(path);
      WalkLinks(s, roots, t, p, h, j);
      var (s1, f) := Walk(s, roots[t], p).value;
      if p != [] {
        WalkKeeps(s, roots, t, p);
      }
      assert TableOkAt(s1, roots, t, p);
      NextLevelLinks(s1, f, i, h, j);
      LinkingTransitive(s, s1, NextLevel(s1, f, i).value.0, h, j);
    }
  }

  lemma LinkingSelf(s: Sys, h: nat, j: nat)
    ensures Takes(s, s) && Linking(s, s, h, j)
  {
  }

  lemma GrowsTransitive(m: seq<u64>, m': seq<u64>, m'': seq<u64>, roots: seq<nat>, t: nat, slot: nat)
    requires Grows(m, m', roots, t, slot) && Grows(m', m'', roots, t, slot)
    ensures Grows(m, m'', roots, t, slot)
  {
  }

  lemma {:induction false} WalkKeeps(s: Sys, roots: seq<nat>, t: nat, path: seq<nat>)
    requires Inv(s, roots) && t < |roots| && ValidPath(path) && path != []
    requires Walk(s, roots[t], path).Some?
    ensures var (s', g) := Walk(s, roots[t], path).value;
      && Inv(s', roots)
      && Grows(s.mem, s'.mem, roots, t, path[0])
      && TableAt(s'.mem, roots[t], path) == Some(g)
    decreases |path|
  {
    var p, i := Front(path), Last(path);
    FrontValid(path);
    var (s1, f) := Walk(s, roots[t], p).value;
    if p != [] {
      WalkKeeps(s, roots, t, p);
    }
    NextLevelKeeps(s1, roots, t, p, f, i);
    if p != [] {
      GrowsTransitive(s.mem, s1.mem, Walk(s, roots[t], path).value.0.mem, roots, t, path[0]);
    }
  }
}
