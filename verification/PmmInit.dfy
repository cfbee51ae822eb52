/** Building the page allocator from the boot memory map (src/arch/x86_64/mm/pmm.rs). */
module PmmInit {
  import opened Arith
  import opened Bits
  import opened Bitmaps
  import opened Options
  import opened Sequences
  import opened PhysAddr
  import opened PmmSpec
  import opened Pmms

  datatype Kind = Usable | BootloaderReclaimable | Kernel | Other
  datatype Entry = Entry(base: nat, length: nat, kind: Kind)

  predicate Counted(e: Entry) {
    e.kind.Usable? || e.kind.BootloaderReclaimable? || e.kind.Kernel?
  }

  /** The highest end of a counted entry. */
  function Biggest(es: seq<Entry>): (r: nat)
    ensures forall k :: 0 <= k < |es| && Counted(es[k]) ==> es[k].base + es[k].length <= r
    ensures r == 0 || exists k :: 0 <= k < |es| && Counted(es[k]) && es[k].base + es[k].length == r
  {
    if es == [] then 0
    else
      var e, rest := es[|es| - 1], Biggest(es[..|es| - 1]);
      if Counted(e) && e.base + e.length > rest then e.base + e.length else rest
  }

  function BitmapSize(es: seq<Entry>): nat {
    DivCeil(Biggest(es) / PAGE_SIZE, 8)
  }

  predicate HasRoom(e: Entry, size: nat) {
    e.kind.Usable? && e.length >= size
  }

  /** The first usable entry, from `k` on, with room for `size` bytes. */
  function RoomAt(es: seq<Entry>, size: nat, k: nat): (r: Option<nat>)
    ensures r.Some? ==> k <= r.value < |es| && HasRoom(es[r.value], size)
    ensures r.Some? ==> forall j :: k <= j < r.value ==> !HasRoom(es[j], size)
    ensures r.None? ==> forall j :: k <= j < |es| ==> !HasRoom(es[j], size)
    decreases |es| - k
  {
    if k >= |es| then None
    else if HasRoom(es[k], size) then Some(k)
    else RoomAt(es, size, k + 1)
  }

  ghost predicate NoRoom(es: seq<Entry>, size: nat) {
    forall j :: 0 <= j < |es| ==> !HasRoom(es[j], size)
  }

  /**
    The bitmap has a bit for every whole page below the end of each entry of usable,
    reclaimable or kernel memory, and no byte it could do without.
   */
  lemma BitmapCovers(es: seq<Entry>)
    ensures forall k :: 0 <= k < |es| && (es[k].kind == Usable || es[k].kind == BootloaderReclaimable || es[k].kind == Kernel) ==>
      (es[k].base + es[k].length) / 4096 <= 8 * BitmapSize(es)
    ensures BitmapSize(es) == 0 ||
      exists k :: 0 <= k < |es| && (es[k].kind == Usable || es[k].kind == BootloaderReclaimable || es[k].kind == Kernel)
        && (es[k].base + es[k].length) / 4096 > 8 * (BitmapSize(es) - 1)
  {
    DivCeilLeast(Biggest(es) / PAGE_SIZE, 8);
    forall k | 0 <= k < |es| && Counted(es[k]) ensures (es[k].base + es[k].length) / 4096 <= Biggest(es) / 4096 {
    }
    if BitmapSize(es) > 0 {
      var k :| 0 <= k < |es| && Counted(es[k]) && es[k].base + es[k].length == Biggest(es);
      assert (es[k].base + es[k].length) / 4096 > 8 * (BitmapSize(es) - 1);
    }
  }

  /** The map after the bitmap has been cut from the front of entry `k`. */
  function Carve(es: seq<Entry>, k: nat): seq<Entry>
    requires k < |es| && es[k].length >= BitmapSize(es)
  {
    var size := BitmapSize(es);
    es[k := Entry(es[k].base + size, es[k].length - size, es[k].kind)]
  }

  predicate InEntry(e: Entry, page: nat) {
    e.kind.Usable? && e.base / PAGE_SIZE <= page < e.base / PAGE_SIZE + e.length / PAGE_SIZE
  }

  /** The pages offered of a page-aligned entry are those that lie in it. */
  lemma UsablePages(e: Entry, page: nat)
    requires e.base % 4096 == 0
    ensures InEntry(e, page) <==> e.kind == Usable && e.base <= page * 4096 && page * 4096 + 4096 <= e.base + e.length
  {
  }

  ghost predicate Offered(es: seq<Entry>, page: nat) {
    exists k :: 0 <= k < |es| && InEntry(es[k], page)
  }

  ghost predicate Fits(es: seq<Entry>) {
    forall k :: 0 <= k < |es| && Counted(es[k]) ==> es[k].base + es[k].length <= PHYS_LIMIT
  }

  lemma {:induction false} BiggestBound(es: seq<Entry>)
    requires Fits(es)
    ensures Biggest(es) <= PHYS_LIMIT
  {
    if es != [] {
      var rest := es[..|es| - 1];
      assert forall k :: 0 <= k < |rest| ==> rest[k] == es[k];
      BiggestBound(rest);
    }
  }

  /** No write of the final loop leaves the bitmap, whatever the map. */
  lemma EntryInBitmap(es: seq<Entry>, e: Entry)
    requires e.base + e.length <= Biggest(es)
    ensures e.base / PAGE_SIZE + e.length / PAGE_SIZE <= 8 * BitmapSize(es)
  {
    DivCeilLeast(Biggest(es) / PAGE_SIZE, 8);
  }

  lemma {:induction false} OfferedStep(es: seq<Entry>, j: nat, page: nat)
    requires j < |es|
    ensures Offered(es[..j + 1], page) <==> (Offered(es[..j], page) || InEntry(es[j], page))
  {
    if Offered(es[..j + 1], page) {
      var k :| 0 <= k < |es[..j + 1]| && InEntry(es[..j + 1][k], page);
      assert k < j ==> InEntry(es[..j][k], page);
    }
    if Offered(es[..j], page) {
      var k :| 0 <= k < |es[..j]| && InEntry(es[..j][k], page);
      assert InEntry(es[..j + 1][k], page);
    }
    if InEntry(es[j], page) {
      assert InEntry(es[..j + 1][j], page);
    }
  }

  /** `None` is the kernel's panic: no usable entry can hold the bitmap. */
  method Init(entries: array<Entry>) returns (r: Option<Pmm>)
    requires Fits(entries[..])
    modifies entries
    ensures r.None? <==> NoRoom(old(entries[..]), BitmapSize(old(entries[..])))
    ensures var es := old(entries[..]);
      match RoomAt(es, BitmapSize(es), 0)
      case None => r == None && entries[..] == es
      case Some(k) =>
        && r.Some?
        && fresh(r.value.bitmap.data)
        && r.value.Valid()
        && entries[..] == Carve(es, k)
        && |r.value.Free()| == 8 * BitmapSize(es)
        && forall i :: 0 <= i < |r.value.Free()| ==> (r.value.Free()[i] <==> Offered(Carve(es, k), i))
  {
    hide NoRoom, Offered, BitmapSize, Biggest;
    ghost var es := entries[..];
    RoomIff(es);
    var biggest := FindBiggest(entries);
    var size := DivCeil(biggest / PAGE_SIZE, 8);
    var found := CarveFrom(entries, size);
    if !found {
      return None;
    }
    ghost var k := RoomAt(es, size, 0).value;
    var bitmap := new Bitmap(size);
    BiggestBound(es);
    assert |bitmap.Contents()| <= MAX_FRAMES by { DivCeilLeast(Biggest(es) / PAGE_SIZE, 8); }
    MarkUsable(entries, bitmap, es);
    assert entries[..][..entries.Length] == entries[..];
    var pmm := new Pmm(bitmap);
    return Some(pmm);
  }

  method FindBiggest(entries: array<Entry>) returns (biggest: nat)
    ensures biggest == Biggest(entries[..])
  {
    ghost var es := entries[..];
    biggest := 0;
    for i := 0 to entries.Length
      invariant biggest == Biggest(es[..i])
    {
      assert es[..i + 1][..i] == es[..i];
      var entry := entries[i];
      if Counted(entry) {
        var peak := entry.base + entry.length;
        if peak > biggest {
          biggest := peak;
        }
      }
    }
    assert es[..entries.Length] == es;
  }

  lemma RoomIff(es: seq<Entry>)
    ensures RoomAt(es, BitmapSize(es), 0) == None <==> NoRoom(es, BitmapSize(es))
    ensures BitmapSize(es) == DivCeil(Biggest(es) / PAGE_SIZE, 8)
  {
  }

  method CarveFrom(entries: array<Entry>, size: nat) returns (found: bool)
    requires size == BitmapSize(entries[..])
    modifies entries
    ensures match RoomAt(old(entries[..]), size, 0)
            case None => !found && entries[..] == old(entries[..])
            case Some(k) => found && entries[..] == Carve(old(entries[..]), k)
  {
    for i := 0 to entries.Length
      invariant entries[..] == old(entries[..])
      invariant RoomAt(entries[..], size, 0) == RoomAt(entries[..], size, i)
    {
      var entry := entries[i];
      if entry.kind.Usable? && entry.length >= size {
        entries[i] := Entry(entry.base + size, entry.length - size, entry.kind);
        assert entries[..] == Carve(old(entries[..]), i);
        return true;
      }
    }
    return false;
  }

  method MarkUsable(entries: array<Entry>, bitmap: Bitmap, ghost es: seq<Entry>)
    requires bitmap.data as object != entries
    requires RoomAt(es, BitmapSize(es), 0).Some?
    requires entries[..] == Carve(es, RoomAt(es, BitmapSize(es), 0).value)
    requires bitmap.data.Length == BitmapSize(es)
    requires forall i :: 0 <= i < |bitmap.Contents()| ==> !bitmap.Contents()[i]
    modifies bitmap.data
    ensures forall i :: 0 <= i < |bitmap.Contents()| ==> (bitmap.Contents()[i] <==> Offered(entries[..], i))
  {
    for j := 0 to entries.Length
      invariant forall i :: 0 <= i < |bitmap.Contents()| ==> (bitmap.Contents()[i] <==> Offered(entries[..][..j], i))
    {
      ghost var before := bitmap.Contents();
      var entry := entries[j];
      if entry.kind.Usable? {
        assert entry.base + entry.length == es[j].base + es[j].length;
        EntryInBitmap(es, entry);
        var page := entry.base / PAGE_SIZE;
        var length := entry.length / PAGE_SIZE;
        for p := page to page + length
          invariant bitmap.Contents() == Fill(before, page, p - page, true)
        {
          bitmap.Set(p);
        }
      }
      forall i | 0 <= i < |bitmap.Contents()|
        ensures bitmap.Contents()[i] <==> Offered(entries[..][..j + 1], i)
      {
        OfferedStep(entries[..], j, i);
      }
    }
    assert entries[..][..entries.Length] == entries[..];
  }

  // -------- when the bitmap itself is safe from the allocator --------

  ghost predicate Aligned(es: seq<Entry>) {
    forall k :: 0 <= k < |es| && es[k].kind.Usable? ==> es[k].base % PAGE_SIZE == 0 && es[k].length % PAGE_SIZE == 0
  }

  ghost predicate Separate(es: seq<Entry>) {
    forall j, k :: 0 <= j < k < |es| && es[j].kind.Usable? && es[k].kind.Usable? ==>
      es[j].base + es[j].length <= es[k].base || es[k].base + es[k].length <= es[j].base
  }

  /** `page` holds a byte of the bitmap cut from `e`. */
  predicate HoldsBitmap(e: Entry, size: nat, page: nat) {
    page * PAGE_SIZE < e.base + size && e.base < page * PAGE_SIZE + PAGE_SIZE
  }

  ghost predicate BitmapSafe(es: seq<Entry>, k: nat)
    requires k < |es| && es[k].length >= BitmapSize(es)
  {
    forall page: nat :: HoldsBitmap(es[k], BitmapSize(es), page) ==> !Offered(Carve(es, k), page)
  }

  /** The carved entry on its own: `size` bytes cut from an aligned entry. */
  lemma CarvedEntry(e: Entry, size: nat, page: nat)
    requires e.kind.Usable? && e.base % PAGE_SIZE == 0 && e.length % PAGE_SIZE == 0 && size <= e.length
    ensures var e' := Entry(e.base + size, e.length - size, e.kind);
      && (size % PAGE_SIZE == 0 ==> (InEntry(e', page) <==> (InEntry(e, page) && !HoldsBitmap(e, size, page))))
      && (e.length - size < PAGE_SIZE ==> !InEntry(e', page))
  {
  }

  lemma TailOffered(e: Entry, size: nat)
    requires e.kind.Usable? && e.base % PAGE_SIZE == 0 && e.length % PAGE_SIZE == 0 && size <= e.length
    requires size % PAGE_SIZE != 0 && e.length - size >= PAGE_SIZE
    ensures var tail := (e.base + size) / PAGE_SIZE;
      HoldsBitmap(e, size, tail) && InEntry(Entry(e.base + size, e.length - size, e.kind), tail)
  {
  }

  lemma OtherEntry(e: Entry, f: Entry, size: nat, page: nat)
    requires f.kind.Usable? ==> f.base % PAGE_SIZE == 0 && f.length % PAGE_SIZE == 0
    requires e.base % PAGE_SIZE == 0 && e.length % PAGE_SIZE == 0
    requires f.kind.Usable? ==> e.base + e.length <= f.base || f.base + f.length <= e.base
    requires size <= e.length && HoldsBitmap(e, size, page)
    ensures !InEntry(f, page)
  {
  }

  /**
    The pages under the bitmap stay off the free set exactly when the bitmap fills whole
    pages or leaves less than a page behind: otherwise the rounding in `base / PAGE_SIZE`
    offers the page that holds the bitmap's tail.
   */
  lemma BitmapSafeIff(es: seq<Entry>, k: nat)
    requires Aligned(es) && Separate(es)
    requires RoomAt(es, BitmapSize(es), 0) == Some(k)
    ensures BitmapSafe(es, k) <==> (BitmapSize(es) % PAGE_SIZE == 0 || es[k].length - BitmapSize(es) < PAGE_SIZE)
  {
    hide BitmapSize, Biggest, InEntry;
    var size, e := BitmapSize(es), es[k];
    var es' := Carve(es, k);
    if size % PAGE_SIZE == 0 || e.length - size < PAGE_SIZE {
      forall page: nat | HoldsBitmap(e, size, page) ensures !Offered(es', page) {
        CarvedEntry(e, size, page);
        forall j | 0 <= j < |es'| && j != k ensures !InEntry(es'[j], page) {
          OtherEntry(e, es[j], size, page);
        }
      }
    } else {
      TailOffered(e, size);
      assert InEntry(es'[k], (e.base + size) / PAGE_SIZE);
    }
  }

  lemma OfferedUpdate(es: seq<Entry>, k: nat, e': Entry, page: nat, hidden: bool)
    requires k < |es|
    requires InEntry(e', page) <==> (InEntry(es[k], page) && !hidden)
    requires hidden ==> forall j :: 0 <= j < |es| && j != k ==> !InEntry(es[j], page)
    ensures Offered(es[k := e'], page) <==> (Offered(es, page) && !hidden)
  {
    var es' := es[k := e'];
    if Offered(es', page) {
      var j :| 0 <= j < |es'| && InEntry(es'[j], page);
      assert InEntry(es[j], page);
    }
    if Offered(es, page) && !hidden {
      var j :| 0 <= j < |es| && InEntry(es[j], page);
      assert InEntry(es'[j], page);
    }
  }

  /** Where the bitmap leaves less than a page, it lies in every page of its entry. */
  lemma AllBitmap(e: Entry, size: nat, page: nat)
    requires e.base % PAGE_SIZE == 0 && e.length % PAGE_SIZE == 0 && size <= e.length && e.length - size < PAGE_SIZE && InEntry(e, page)
    ensures HoldsBitmap(e, size, page)
  {
  }

  /** On an aligned map with a safe bitmap the free set is the usable pages less the bitmap's own. */
  lemma FreeSetExact(es: seq<Entry>, k: nat, page: nat)
    requires Aligned(es) && Separate(es)
    requires RoomAt(es, BitmapSize(es), 0) == Some(k)
    requires BitmapSize(es) % PAGE_SIZE == 0 || es[k].length - BitmapSize(es) < PAGE_SIZE
    ensures Offered(Carve(es, k), page) <==> (Offered(es, page) && !HoldsBitmap(es[k], BitmapSize(es), page))
  {
    hide BitmapSize, Biggest, InEntry, HoldsBitmap, Offered;
    var size, e := BitmapSize(es), es[k];
    CarvedEntry(e, size, page);
    if e.length - size < PAGE_SIZE && InEntry(e, page) {
      AllBitmap(e, size, page);
    }
    if HoldsBitmap(e, size, page) {
      forall j | 0 <= j < |es| && j != k ensures !InEntry(es[j], page) {
        OtherEntry(e, es[j], size, page);
      }
    }
    OfferedUpdate(es, k, Carve(es, k)[k], page, HoldsBitmap(e, size, page));
  }

  /** A two-page map whose one-byte bitmap sits in a page the allocator then gives out. */
  lemma BitmapUnsafeExample()
    ensures var es := [Entry(0, 8192, Usable)];
      && Aligned(es) && Separate(es) && Fits(es)
      && RoomAt(es, BitmapSize(es), 0) == Some(0)
      && HoldsBitmap(es[0], BitmapSize(es), 0) && Offered(Carve(es, 0), 0)
  {
    var es := [Entry(0, 8192, Usable)];
    assert es[..0] == [];
    assert Biggest(es) == 8192;
    assert BitmapSize(es) == 1;
    assert InEntry(Carve(es, 0)[0], 0);
  }

  /** The allocator as `Init` leaves it. */
  ghost predicate Booted(es: seq<Entry>, k: nat, free: seq<bool>) {
    && Aligned(es) && Separate(es) && RoomAt(es, BitmapSize(es), 0) == Some(k) && |free| == 8 * BitmapSize(es) <= MAX_FRAMES
    && forall i :: 0 <= i < |free| ==> (free[i] <==> Offered(Carve(es, k), i))
  }

  /** After boot with a safe bitmap, whatever is allocated and freed, only usable pages outside the bitmap are ever held. */
  lemma OnlyUsableHandedOut(es: seq<Entry>, k: nat, free: seq<bool>, ops: seq<Op>, page: nat)
    requires Booted(es, k, free) && BitmapSafe(es, k) && Held(RunOps(free, Heap(free, []), ops).live, page)
    ensures Offered(es, page) && !HoldsBitmap(es[k], BitmapSize(es), page)
  {
    hide Offered, BitmapSize;
    var h := RunOps(free, Heap(free, []), ops);
    var j :| 0 <= j < |h.live| && Covers(h.live[j], page);
    Conservation(free, ops);
    assert free[page];
    BitmapSafeIff(es, k);
    FreeSetExact(es, k, page);
  }

  /** So many requests for one page each. */
  function Singles(n: nat): (r: seq<Op>)
    ensures |r| == n
  {
    seq(n, _ => Alloc(1))
  }

  /** Single pages go out from the bottom up. */
  lemma {:induction false} SinglesClear(initial: seq<bool>, h: Heap, n: nat, m: nat)
    requires Conserved(initial, h) && forall i :: 0 <= i < m && i < |h.free| ==> !h.free[i]
    ensures var h' := RunOps(initial, h, Singles(n)); |h'.free| == |h.free| && forall i :: 0 <= i < m + n && i < |h.free| ==> !h'.free[i]
    decreases n
  {
    if n > 0 {
      StepConserves(initial, h, Alloc(1));
      var h1 := Step(h, Alloc(1));
      OneClear(h, m);
      assert Singles(n)[0] == Alloc(1) && Singles(n)[1..] == Singles(n - 1);
      SinglesClear(initial, h1, n - 1, m + 1);
    }
  }

  lemma OneClear(h: Heap, m: nat)
    requires Bounded(h) && forall i :: 0 <= i < m && i < |h.free| ==> !h.free[i]
    ensures var h' := Step(h, Alloc(1)); |h'.free| == |h.free| && forall i :: 0 <= i < m + 1 && i < |h.free| ==> !h'.free[i]
  {
    var p := Find(h.free, 1);
    if m < |h.free| && h.free[m] {
      assert RunAt(h.free, m, 1);
      assert p.Some? && RunAt(h.free, p.value, 1) && h.free[p.value] && p.value <= m;
    }
  }

  /** With an unsafe one, some run hands out a page that holds the bitmap. */
  lemma BitmapHandedOut(es: seq<Entry>, k: nat, free: seq<bool>) returns (ops: seq<Op>, page: nat)
    requires Booted(es, k, free) && !BitmapSafe(es, k)
    ensures HoldsBitmap(es[k], BitmapSize(es), page) && Held(RunOps(free, Heap(free, []), ops).live, page)
  {
    hide BitmapSize, Offered, HoldsBitmap;
    page :| page >= 0 && HoldsBitmap(es[k], BitmapSize(es), page) && Offered(Carve(es, k), page);
    OfferedInBitmap(es, k, page);
    assert free[page];
    ops := Singles(page + 1);
    SinglesClear(free, Heap(free, []), page + 1, 0);
    Conservation(free, ops);
  }

  lemma OfferedInBitmap(es: seq<Entry>, k: nat, page: nat)
    requires RoomAt(es, BitmapSize(es), 0) == Some(k) && Offered(Carve(es, k), page)
    ensures page < 8 * BitmapSize(es)
  {
    hide BitmapSize, Biggest;
    var es' := Carve(es, k);
    var j :| 0 <= j < |es'| && InEntry(es'[j], page);
    assert es'[j].base + es'[j].length == es[j].base + es[j].length;
    EntryInBitmap(es, es'[j]);
  }
}
