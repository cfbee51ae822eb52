/** The slab allocator of src/mm/slab.rs in place; `next` chains are sequences, head first. */
module Slabs {
  import opened Arith
  import opened Bits
  import opened Bitmaps
  import opened Options
  import opened PhysAddr
  import opened SlabSpec
  import opened SlabHeap

  class SlabNode {
    var freeObjs: nat
    const objectSize: nat
    const data: nat
    const bitmap: Bitmap
    /** Where the slab sits: `data` is the first byte past its header. */
    ghost const page: nat
    ghost const header: nat

    ghost predicate Valid()
      reads this, bitmap.data
    {
      && objectSize > 0 && data == PHYS_BASE + page * PAGE_SIZE + header
      && 8 * bitmap.data.Length >= OBJS_PER_SLAB
    }

    ghost function View(): (s: Slab)
      reads this, bitmap.data
      ensures |s.bits| == 8 * bitmap.data.Length
    {
      Slab(page, header, objectSize, bitmap.Contents(), freeObjs)
    }

    constructor (firstPage: nat, headerSize: nat, objectSize: nat)
      requires objectSize > 0
      ensures Valid() && fresh(bitmap.data) && View() == EmptySlab(firstPage, headerSize, objectSize)
    {
      var b := new Bitmap(PAGE_SIZE);
      freeObjs := OBJS_PER_SLAB;
      this.objectSize := objectSize;
      data := PHYS_BASE + firstPage * PAGE_SIZE + headerSize;
      bitmap := b;
      page := firstPage;
      header := headerSize;
    }

    method Alloc() returns (ptr: nat)
      requires Valid()
      modifies this, bitmap.data
      ensures Valid()
      ensures (View(), ptr) == SlabAlloc(old(View()))
    {
      if freeObjs == 0 {
        return 0;
      }
      ghost var bits := bitmap.Contents();
      for i := 0 to OBJS_PER_SLAB
        invariant bitmap.Contents() == bits && freeObjs == old(freeObjs)
        invariant FirstClear(bits[..OBJS_PER_SLAB], 0) == FirstClear(bits[..OBJS_PER_SLAB], i)
      {
        if !bitmap.IsSet(i) {
          bitmap.Set(i);
          freeObjs := freeObjs - 1;
          return data + i * objectSize;
        }
      }
      return 0;
    }

    function BitFor(ptr: nat): (r: nat)
      requires Valid() && ptr >= data
      reads this, bitmap.data
      ensures r == BitOf(View(), ptr)
    {
      (ptr - data) / objectSize
    }

    method Dealloc(ptr: nat)
      requires Valid() && ptr >= data && BitOf(View(), ptr) < 8 * bitmap.data.Length
      modifies this, bitmap.data
      ensures Valid()
      ensures View() == SlabDealloc(old(View()), ptr)
    {
      var bit := BitFor(ptr);
      freeObjs := freeObjs + 1;
      bitmap.Clear(bit);
    }
  }

  class CacheNode {
    const objectSize: nat
    const pagesPerSlab: nat
    var slabCount: nat
    var slabs: seq<SlabNode>
    ghost const header: nat
    /** The slabs and their bitmaps. */
    ghost var parts: set<object>

    ghost predicate Valid()
      reads this, parts
    {
      && objectSize > 0 && pagesPerSlab == PagesPerSlab(objectSize, header) && slabCount == |slabs|
      && this !in parts
      && (forall k :: 0 <= k < |slabs| ==> slabs[k] in parts && slabs[k].bitmap.data in parts)
      && (forall k :: 0 <= k < |slabs| ==> slabs[k].Valid() && slabs[k].objectSize == objectSize && slabs[k].header == header)
      && (forall j, k :: 0 <= j < k < |slabs| ==> slabs[j] != slabs[k] && slabs[j].bitmap.data != slabs[k].bitmap.data)
    }

    ghost function View(): (c: Cache)
      requires Valid()
      reads this, parts
      ensures |c.slabs| == |slabs| && c.size == objectSize && c.header == header
      ensures forall k :: 0 <= k < |slabs| ==> c.slabs[k] == slabs[k].View()
    {
      Cache(objectSize, header, seq(|slabs|, k requires 0 <= k < |slabs| && Valid() reads this, parts => slabs[k].View()))
    }

    constructor (firstPage: nat, headerSize: nat, objSize: nat)
      requires objSize > 0
      ensures Valid() && fresh(parts)
      ensures View() == Cache(objSize, headerSize, [EmptySlab(firstPage, headerSize, objSize)])
    {
      var slab := new SlabNode(firstPage, headerSize, objSize);
      objectSize := objSize;
      pagesPerSlab := DivCeil(OBJS_PER_SLAB * objSize + headerSize, PAGE_SIZE);
      header := headerSize;
      slabs := [slab];
      slabCount := 1;
      parts := {slab, slab.bitmap.data};
    }

    /** `None` is the null dereference at the end of a list of full slabs. */
    method AllocObj() returns (r: Option<nat>)
      requires Valid()
      modifies parts
      ensures Valid()
      ensures match SlabSpec.AllocObj(old(View()))
              case None => r == None && View() == old(View())
              case Some((c, ptr)) => r == Some(ptr) && View() == c
    {
      var k := 0;
      while k < |slabs| && slabs[k].freeObjs == 0
        invariant 0 <= k <= |slabs|
        invariant FirstWithSpace(View().slabs, 0) == FirstWithSpace(View().slabs, k)
      {
        k := k + 1;
      }
      if k == |slabs| {
        return None;
      }
      // The loop only stops at a slab with space, so the branch that grows the cache is dead.
      if slabs[k].freeObjs == 0 {
        assert false;
      }
      ghost var before := View();
      var ptr := slabs[k].Alloc();
      assert View().slabs == before.slabs[k := slabs[k].View()];
      return Some(ptr);
    }

    method FindSlab(ptr: nat) returns (found: bool, k: nat)
      requires Valid()
      ensures FindWindow(View().slabs, pagesPerSlab, ptr, 0) == if found then Some(k) else None
    {
      found := false;
      k := 0;
      for n := 0 to slabCount
        invariant k == n && !found
        invariant FindWindow(View().slabs, pagesPerSlab, ptr, 0) == FindWindow(View().slabs, pagesPerSlab, ptr, k)
      {
        if ptr >= slabs[k].data && ptr < slabs[k].data + pagesPerSlab * PAGE_SIZE {
          found := true;
          break;
        }
        k := k + 1;
      }
    }

    /** `false` is the panic on a pointer no slab issued. */
    method FreeObj(ptr: nat) returns (ok: bool)
      requires Valid()
      modifies parts
      ensures Valid()
      ensures match SlabSpec.FreeObj(old(View()), ptr)
              case None => !ok && View() == old(View())
              case Some(c) => ok && View() == c
    {
      hide FindWindow;
      ghost var before := View();
      var found, k := FindSlab(ptr);
      if !found {
        return false;
      }
      var slab := slabs[k];
      if slab.BitFor(ptr) >= 8 * slab.bitmap.data.Length {
        return false;
      }
      slab.Dealloc(ptr);
      assert View().slabs == before.slabs[k := slab.View()];
      return true;
    }
  }

  lemma HeapAllocIn(h: Heap, size: nat, c: nat)
    requires CachesOk(h) && CacheFor(h, size, 0) == Some(c)
    ensures CacheOk(h[c])
    ensures SlabSpec.AllocObj(h[c]) == None ==> HeapAlloc(h, size) == None
    ensures SlabSpec.AllocObj(h[c]).Some? ==>
      HeapAlloc(h, size) == Some((h[c := SlabSpec.AllocObj(h[c]).value.0], SlabSpec.AllocObj(h[c]).value.1))
  {
  }

  lemma NoClass(h: Heap, ptr: nat, size: nat)
    requires CachesOk(h) && CacheFor(h, size, 0) == None
    ensures HeapAlloc(h, size) == None && HeapFree(h, ptr, size) == None
  {
  }

  lemma HeapFreeIn(h: Heap, ptr: nat, size: nat, c: nat)
    requires CachesOk(h) && CacheFor(h, size, 0) == Some(c)
    ensures CacheOk(h[c])
    ensures HeapFree(h, ptr, size) ==
      if SlabSpec.FreeObj(h[c], ptr) == None then None else Some(h[c := SlabSpec.FreeObj(h[c], ptr).value])
  {
  }

  class SlabAllocator {
    var caches: seq<CacheNode>
    /** The slabs and bitmaps of every cache. */
    ghost var parts: set<object>

    ghost predicate Valid()
      reads this, caches, parts
    {
      && this !in parts
      && (forall i :: 0 <= i < |caches| ==> caches[i] !in parts && caches[i].parts <= parts)
      && (forall i :: 0 <= i < |caches| ==> caches[i].Valid())
      && (forall i, j :: 0 <= i < j < |caches| ==> caches[i] != caches[j] && caches[i].parts !! caches[j].parts)
    }

    ghost function View(): (h: Heap)
      requires Valid()
      reads this, caches, parts
      ensures |h| == |caches|
      ensures forall i :: 0 <= i < |caches| ==> h[i] == caches[i].View()
    {
      seq(|caches|, i requires 0 <= i < |caches| && Valid() reads this, caches, parts => caches[i].View())
    }

    constructor ()
      ensures Valid() && View() == []
    {
      caches, parts := [], {};
    }

    twostate lemma Prepended(new cache: CacheNode)
      requires old(Valid()) && caches == [cache] + old(caches) && parts == old(parts) + cache.parts
      requires cache.Valid() && fresh(cache) && fresh(cache.parts)
      requires forall i :: 0 <= i < |old(caches)| ==> unchanged(old(caches)[i]) && unchanged(old(caches)[i].parts)
      ensures Valid() && View() == [cache.View()] + old(View())
    {
      ghost var before := old(caches);
      forall i | 0 <= i < |before|
        ensures before[i].Valid() && before[i].View() == old(View())[i] && before[i].parts !! cache.parts
      {
        assert unchanged(before[i]) && unchanged(before[i].parts);
      }
      forall i | 0 < i < |caches| ensures caches[i] == before[i - 1] {
      }
      assert Valid();
    }

    /** `add_cache` once the pages are obtained: the new cache goes to the front of the list. */
    method AddCache(firstPage: nat, headerSize: nat, objSize: nat)
      requires Valid() && objSize > 0
      modifies this
      ensures Valid()
      ensures View() == [Cache(objSize, headerSize, [EmptySlab(firstPage, headerSize, objSize)])] + old(View())
    {
      var cache := new CacheNode(firstPage, headerSize, objSize);
      caches, parts := [cache] + caches, parts + cache.parts;
      Prepended(cache);
    }

    method CacheForSize(size: nat) returns (r: Option<CacheNode>, ghost c: nat)
      requires Valid()
      ensures match CacheFor(View(), size, 0)
              case None => r == None
              case Some(i) => c == i && r == Some(caches[i])
    {
      var i := 0;
      while i < |caches| && caches[i].objectSize < size
        invariant 0 <= i <= |caches|
        invariant CacheFor(View(), size, 0) == CacheFor(View(), size, i)
      {
        i := i + 1;
      }
      c := i;
      if i == |caches| || caches[i].objectSize < size {
        return None, c;
      }
      return Some(caches[i]), c;
    }

    /** Work inside one cache leaves the others, and the list, alone. */
    twostate lemma OneCacheChanged(c: nat)
      requires old(Valid()) && c < |caches| && unchanged(this) && unchanged(caches)
      requires forall i :: 0 <= i < |caches| && i != c ==> unchanged(caches[i].parts)
      requires caches[c].Valid()
      ensures Valid() && View() == old(View())[c := caches[c].View()]
    {
      forall i | 0 <= i < |caches| && i != c
        ensures caches[i].Valid() && caches[i].View() == old(caches[i].View())
      {
        assert unchanged(caches[i].parts);
      }
    }

    method Alloc(size: nat) returns (r: Option<nat>)
      requires Valid() && CachesOk(View())
      modifies parts
      ensures Valid()
      ensures var res := HeapAlloc(old(View()), size);
        (r.Some? <==> res.Some?) && (r.Some? ==> r.value == res.value.1 && View() == res.value.0) && (r.None? ==> View() == old(View()))
    {
      hide HeapAlloc, CacheFor, SlabSpec.AllocObj, CacheOk;
      var cache, c := CacheForSize(size);
      if cache == None {
        NoClass(View(), 0, size);
        return None;
      }
      ghost var h := View();
      HeapAllocIn(h, size, c);
      r := cache.value.AllocObj();
      OneCacheChanged(c);
    }

    method Dealloc(ptr: nat, size: nat) returns (ok: bool)
      requires Valid() && CachesOk(View())
      modifies parts
      ensures Valid()
      ensures var res := HeapFree(old(View()), ptr, size);
        (ok <==> res.Some?) && View() == if ok then res.value else old(View())
    {
      hide HeapFree, CacheFor, SlabSpec.FreeObj, CacheOk;
      var cache, c := CacheForSize(size);
      if cache == None {
        NoClass(View(), ptr, size);
        return false;
      }
      ghost var h := View();
      HeapFreeIn(h, ptr, size, c);
      ok := cache.value.FreeObj(ptr);
      OneCacheChanged(c);
    }
  }
}
