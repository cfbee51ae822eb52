/** How many blocks growth takes, and so exactly when the allocator's panic is reached (src/fs/ext2.rs). */
module Ext2Space {
  import opened Bits
  import opened Options
  import opened Ext2Layout
  import opened Ext2Alloc
  import opened Ext2File

  ghost function FreeBlocks(fs: Fs): set<nat>
    requires Ok(fs)
  {
    set b: nat | b < |fs.vol| && IsFree(fs.geo, fs.vol, fs.lay, b)
  }

  ghost function FreeCount(fs: Fs): nat
    requires Ok(fs)
  {
    |FreeBlocks(fs)|
  }

  lemma FreeBlocksHas(fs: Fs, b: nat)
    requires Ok(fs)
    ensures b in FreeBlocks(fs) <==> IsFree(fs.geo, fs.vol, fs.lay, b)
  {
    hide BitMeans, Counted, GroupPlaced;
    if IsFree(fs.geo, fs.vol, fs.lay, b) {
      FreeIsData(fs, b);
    }
  }

  /** From `fs` to `fs'` the `k` lowest free blocks are taken, and no other. */
  ghost predicate TakesLowest(fs: Fs, fs': Fs, k: nat) {
    && Ok(fs) && Ok(fs') && FreeBlocks(fs') <= FreeBlocks(fs) && FreeCount(fs') == FreeCount(fs) - k
    && forall a, b :: a in FreeBlocks(fs) - FreeBlocks(fs') && b in FreeBlocks(fs') ==> a < b
  }

  lemma TakesTransitive(fs: Fs, fs1: Fs, fs2: Fs, k: nat, l: nat)
    requires TakesLowest(fs, fs1, k) && TakesLowest(fs1, fs2, l)
    ensures TakesLowest(fs, fs2, k + l)
  {
    hide FsOk, FreeBlocks;
    forall a, b | a in FreeBlocks(fs) - FreeBlocks(fs2) && b in FreeBlocks(fs2) ensures a < b {
      if a in FreeBlocks(fs1) {
        assert a in FreeBlocks(fs1) - FreeBlocks(fs2);
      } else {
        assert a in FreeBlocks(fs) - FreeBlocks(fs1) && b in FreeBlocks(fs1);
      }
    }
  }

  /** A free block stays free exactly when so many free ones come before it. */
  lemma StillFreeIff(fs: Fs, fs': Fs, k: nat, e: nat)
    requires TakesLowest(fs, fs', k)
    ensures e in FreeBlocks(fs') <==> e in FreeBlocks(fs) && |FreeBelow(fs, e)| >= k
  {
    hide FsOk, FreeBlocks;
    var taken := FreeBlocks(fs) - FreeBlocks(fs');
    assert FreeBlocks(fs) == taken + FreeBlocks(fs');
    if e in FreeBlocks(fs') {
      SubsetSize(taken, FreeBelow(fs, e));
    } else if e in FreeBlocks(fs) {
      SubsetSize(FreeBelow(fs, e), taken - {e});
    }
  }

  lemma SubsetSize(a: set<nat>, b: set<nat>)
    requires a <= b
    ensures |a| <= |b|
  {
    assert b == a + (b - a);
  }

  /** The next block handed out is the one with exactly so many free blocks before it. */
  lemma NextIs(fs: Fs, fs': Fs, k: nat)
    requires TakesLowest(fs, fs', k) && AllocBlock(fs'.geo, fs'.vol, fs'.lay).Some?
    ensures var nr := AllocBlock(fs'.geo, fs'.vol, fs'.lay).value.1; nr in FreeBlocks(fs) && |FreeBelow(fs, nr)| == k
  {
    hide BitMeans, Counted, GroupPlaced, FreeBit, FreeBlocks, Ext2Alloc.AllocBlock;
    var nr := AllocBlock(fs'.geo, fs'.vol, fs'.lay).value.1;
    AllocBlockIff(fs'.geo, fs'.vol, fs'.lay);
    FreeBlocksHas(fs', nr);
    forall b | b in FreeBlocks(fs') ensures nr <= b {
      FreeBlocksHas(fs', b);
      AllocLowest(fs'.geo, fs'.vol, fs'.lay, b);
    }
    var taken := FreeBlocks(fs) - FreeBlocks(fs');
    assert FreeBlocks(fs) == taken + FreeBlocks(fs');
    assert FreeBelow(fs, nr) == taken;
  }

  ghost function FreeBelow(fs: Fs, e: nat): set<nat>
    requires Ok(fs)
  {
    set b | b in FreeBlocks(fs) && b < e
  }

  /** An allocation succeeds exactly when a block is free, and takes the lowest. */
  lemma AllocCost(fs: Fs)
    requires Ok(fs)
    ensures AllocBlock(fs.geo, fs.vol, fs.lay).Some? <==> FreeCount(fs) > 0
    ensures AllocBlock(fs.geo, fs.vol, fs.lay).Some? ==>
      TakesLowest(fs, fs.(vol := AllocBlock(fs.geo, fs.vol, fs.lay).value.0), 1)
  {
    hide BitMeans, Counted, GroupPlaced, FreeBit, Ext2Alloc.AllocBlock;
    AllocBlockIff(fs.geo, fs.vol, fs.lay);
    if AllocBlock(fs.geo, fs.vol, fs.lay).Some? {
      var (vol', nr) := AllocBlock(fs.geo, fs.vol, fs.lay).value;
      var fs' := fs.(vol := vol');
      AllocKeeps(fs);
      FreeBlocksHas(fs, nr);
      forall b: nat ensures b in FreeBlocks(fs') <==> b in FreeBlocks(fs) && b != nr {
        FreeBlocksHas(fs, b);
        FreeBlocksHas(fs', b);
        if b in FreeBlocks(fs) {
          AllocLowest(fs.geo, fs.vol, fs.lay, b);
        }
      }
      assert FreeBlocks(fs') == FreeBlocks(fs) - {nr};
      forall a, b | a in FreeBlocks(fs) - FreeBlocks(fs') && b in FreeBlocks(fs') ensures a < b {
        FreeBlocksHas(fs, b);
        AllocLowest(fs.geo, fs.vol, fs.lay, b);
      }
    } else {
      forall b: nat ensures b !in FreeBlocks(fs) {
        FreeBlocksHas(fs, b);
      }
      assert FreeBlocks(fs) == {};
    }
  }

  ghost predicate SameFree(fs: Fs, fs': Fs) {
    && Ok(fs) && Ok(fs') && fs'.geo == fs.geo && fs'.lay == fs.lay && |fs'.vol| == |fs.vol|
    && forall b: nat :: IsFree(fs.geo, fs'.vol, fs.lay, b) <==> IsFree(fs.geo, fs.vol, fs.lay, b)
  }

  lemma SameFreeCount(fs: Fs, fs': Fs)
    requires SameFree(fs, fs')
    ensures FreeCount(fs') == FreeCount(fs) && TakesLowest(fs, fs', 0)
  {
    hide BitMeans, Counted, GroupPlaced, FreeBit;
    forall b: nat ensures b in FreeBlocks(fs') <==> b in FreeBlocks(fs) {
      FreeBlocksHas(fs, b);
      FreeBlocksHas(fs', b);
    }
    assert FreeBlocks(fs') == FreeBlocks(fs);
  }

  lemma FlushCost(fs: Fs, ino: Inode)
    requires Ok(fs) && InodeOk(fs.geo, ino)
    ensures TakesLowest(fs, PutInode(fs, ino), 0)
  {
    hide BitMeans, Counted, GroupPlaced, FreeBit, PutInode;
    PutInodeOk(fs, ino);
    PutInodeGeo(fs, ino);
    SameFreeCount(fs, PutInode(fs, ino));
  }

  lemma PutPtrCost(fs: Fs, b: nat, r: nat, v: u32)
    requires Ok(fs) && Good(fs, b)
    ensures TakesLowest(fs, fs.(vol := PutPtr(fs.vol, b, r, v)), 0)
  {
    hide BitMeans, Counted, GroupPlaced, FreeBit;
    var fs' := fs.(vol := PutPtr(fs.vol, b, r, v));
    PutPtrKeeps(fs, b, r, v);
    PlainWriteOk(fs.geo, fs.vol, fs.lay, fs'.vol);
    SameFreeCount(fs, fs');
  }

  /** `need` blocks can be had: the superblock's counter, which is never lowered, is not zero, and so many are free. */
  predicate Affordable(unallocated: nat, free: nat, need: nat) {
    need == 0 || (unallocated > 0 && need <= free)
  }

  // -------- the cost of a slot --------

  /** Blocks the way to a slot still lacks. */
  function Missing(ino: Inode, slot: Slot): nat {
    match slot
    case InInode(_) => 0
    case InSingly(_) => if Word(ino, SINGLY) == 0 then 1 else 0
    case InSecond(_, _) => if Word(ino, DOUBLY) == 0 then 2 else 0
  }

  lemma GiveSingleCost(fs: Fs, ino: Inode)
    requires Ok(fs) && InodeOk(fs.geo, ino)
    ensures GiveSingle(fs, ino).Some? <==> FreeCount(fs) >= 1
    ensures GiveSingle(fs, ino).Some? ==> TakesLowest(fs, GiveSingle(fs, ino).value.0, 1)
  {
    hide BitMeans, Counted, GroupPlaced, FreeBit, Ext2Alloc.AllocBlock, PutInode, FreeBlocks;
    AllocCost(fs);
    if AllocBlock(fs.geo, fs.vol, fs.lay).Some? {
      AllocKeeps(fs);
      var (vol1, s) := AllocBlock(fs.geo, fs.vol, fs.lay).value;
      var fs1, ino1 := fs.(vol := vol1), SetWord(ino, SINGLY, s);
      FlushCost(fs1, ino1);
      TakesTransitive(fs, fs1, PutInode(fs1, ino1), 1, 0);
    }
  }

  lemma GiveDoubleCost(fs: Fs, ino: Inode, k: nat)
    requires Ok(fs) && InodeOk(fs.geo, ino)
    ensures GiveDouble(fs, ino, k).Some? <==> FreeCount(fs) >= 2
    ensures GiveDouble(fs, ino, k).Some? ==> TakesLowest(fs, GiveDouble(fs, ino, k).value.0, 2)
  {
    hide BitMeans, Counted, GroupPlaced, FreeBit, Ext2Alloc.AllocBlock, PutInode, FreeBlocks;
    AllocCost(fs);
    if AllocBlock(fs.geo, fs.vol, fs.lay).Some? {
      AllocKeeps(fs);
      var (vol1, d) := AllocBlock(fs.geo, fs.vol, fs.lay).value;
      var fs1, ino1 := fs.(vol := vol1), SetWord(ino, DOUBLY, d);
      FlushCost(fs1, ino1);
      FlushKeeps(fs1, ino1);
      var fs2 := PutInode(fs1, ino1);
      TakesTransitive(fs, fs1, fs2, 1, 0);
      AllocCost(fs2);
      if AllocBlock(fs2.geo, fs2.vol, fs2.lay).Some? {
        AllocKeeps(fs2);
        var (vol3, e) := AllocBlock(fs2.geo, fs2.vol, fs2.lay).value;
        var fs3 := fs2.(vol := vol3);
        PutPtrCost(fs3, d, k, e);
        TakesTransitive(fs, fs2, fs3, 1, 1);
        TakesTransitive(fs, fs3, fs3.(vol := PutPtr(fs3.vol, d, k, e)), 2, 0);
      }
    }
  }

  lemma PrepareCost(fs: Fs, ino: Inode, slot: Slot)
    requires Ok(fs) && InodeOk(fs.geo, ino)
    ensures Prepare(fs, ino, slot).Some? <==> FreeCount(fs) >= Missing(ino, slot)
    ensures Prepare(fs, ino, slot).Some? ==> TakesLowest(fs, Prepare(fs, ino, slot).value.0, Missing(ino, slot))
  {
    hide FsOk, GiveSingle, GiveDouble, FreeBlocks;
    match slot
    case InInode(_) =>
    case InSingly(_) => GiveSingleCost(fs, ino);
    case InSecond(k, _) => GiveDoubleCost(fs, ino, k);
  }

  /** Where a file's pointer blocks are its own, `set_block_address` panics exactly when fewer blocks are free than its slot lacks. */
  lemma SetAddrCost(fs: Fs, ino: Inode, second: set<nat>, index: nat, v: u32)
    requires Ok(fs) && InodeOk(fs.geo, ino) && HoldersOk(fs, ino, second)
    requires index < MaxIndex(fs.geo) ==> Ready(ino, second, Decode(fs.geo, index))
    ensures SetAddr(fs, ino, index, v).Some? <==>
      index >= MaxIndex(fs.geo) || FreeCount(fs) >= Missing(ino, Decode(fs.geo, index))
    ensures index < MaxIndex(fs.geo) && SetAddr(fs, ino, index, v).Some? ==>
      TakesLowest(fs, SetAddr(fs, ino, index, v).value.0, Missing(ino, Decode(fs.geo, index)))
  {
    hide BitMeans, Counted, GroupPlaced, FreeBit, Prepare, PutSlot, PutInode, FreeBlocks, Decode, HoldersOk;
    if index < MaxIndex(fs.geo) {
      var slot := Decode(fs.geo, index);
      PrepareCost(fs, ino, slot);
      if Prepare(fs, ino, slot).Some? {
        var (fs1, ino1) := Prepare(fs, ino, slot).value;
        DecodeEncode(fs.geo, index);
        PrepareOk(fs, ino, second, 0, slot, 0);
        StoreCost(fs1, ino1, Prepared(ino, second, slot), slot, v);
        TakesTransitive(fs, fs1, SetAddr(fs, ino, index, v).value.0, Missing(ino, slot), 0);
      }
    }
  }

  // -------- the cost of growth --------

  lemma StoreCost(fs: Fs, ino: Inode, second: set<nat>, slot: Slot, v: u32)
    requires Ok(fs) && InodeOk(fs.geo, ino) && HoldersOk(fs, ino, second) && SlotIn(fs, ino, second, slot)
    ensures var (fs', ino') := PutSlot(fs, ino, slot, v);
      && Ok(fs') && InodeOk(fs'.geo, ino')
      && TakesLowest(fs, if slot.InInode? then PutInode(fs', ino') else fs', 0)
  {
    hide BitMeans, Counted, GroupPlaced, FreeBit, PutInode, FreeBlocks;
    if slot.InInode? {
      FlushCost(fs, PutSlot(fs, ino, slot, v).1);
    } else {
      var h := if slot.InSingly? then Single else Second(slot.k);
      assert Good(fs, HolderAt(fs, ino, h));
      PutPtrCost(fs, HolderAt(fs, ino, h), slot.r, v);
    }
  }

  /** One turn of growth succeeds exactly when its block and the pointer blocks it lacks are free. */
  lemma GrowCost(fs: Fs, ino: Inode, n: nat)
    requires FileOk(fs, ino, SecondOf(ino), n) && n < GrowthLimit(fs.geo) && n < MaxIndex(fs.geo)
    ensures var cost := 1 + Missing(ino, Decode(fs.geo, n));
      && (Grow(fs, ino, n).Some? <==> FreeCount(fs) >= cost)
      && (Grow(fs, ino, n).Some? ==> TakesLowest(fs, Grow(fs, ino, n).value.0, cost))
  {
    hide BitMeans, Counted, GroupPlaced, FreeBit, Ext2Alloc.AllocBlock, PutInode, FreeBlocks, BlockOk, AddrsApart, Prepare, Decode;
    AllocCost(fs);
    if AllocBlock(fs.geo, fs.vol, fs.lay).Some? {
      AllocKeeps(fs);
      var (vol1, nr) := AllocBlock(fs.geo, fs.vol, fs.lay).value;
      var fs1, slot := fs.(vol := vol1), Decode(fs.geo, n);
      PrepareCost(fs1, ino, slot);
      if Prepare(fs1, ino, slot).Some? {
        var (fs2, ino2) := Prepare(fs1, ino, slot).value;
        GrowPrepared(fs, ino, n, fs2, ino2);
        StoreCost(fs2, ino2, SecondOf(ino2), slot, nr);
        TakesTransitive(fs, fs1, fs2, 1, Missing(ino, slot));
        TakesTransitive(fs, fs2, Grow(fs, ino, n).value.0, 1 + Missing(ino, slot), 0);
      }
    }
  }

  /** A direct block is the lowest that was free. */
  lemma DirectLowest(fs: Fs, ino: Inode, n: nat)
    requires FileOk(fs, ino, SecondOf(ino), n) && n < 12 && Grow(fs, ino, n).Some?
    ensures var (fs', ino') := Grow(fs, ino, n).value;
      && FileOk(fs', ino', SecondOf(ino'), n + 1) && Ok(fs) && Ok(fs') && fs'.geo == fs.geo
      && (forall i :: 0 <= i < n ==> Direct(ino', i) == Direct(ino, i))
      && var a: nat := Direct(ino', n); a in FreeBlocks(fs) && FreeBlocks(fs') == FreeBlocks(fs) - {a} && forall b :: b in FreeBlocks(fs') ==> a < b
  {
    hide FsOk, FileOk, FreeBlocks, Grow, Grown, Decode, GrowthLimit, MaxIndex, Direct;
    FileGeo(fs, ino, n);
    DirectSlot(fs, ino, n);
    GrowCost(fs, ino, n);
    GrowOk(fs, ino, n);
    var (fs', ino') := Grow(fs, ino, n).value;
    GrownFile(fs, ino, n, fs', ino', n + 1);
    FileGeo(fs', ino', n + 1);
    GrownLast(fs, ino, n, fs', ino');
    var a: nat := Direct(ino', n);
    OneGone(FreeBlocks(fs), FreeBlocks(fs'), a);
    assert a in FreeBlocks(fs) - FreeBlocks(fs');
  }

  lemma DirectSlot(fs: Fs, ino: Inode, n: nat)
    requires FileOk(fs, ino, SecondOf(ino), n) && n < 12
    ensures n < GrowthLimit(fs.geo) && n < MaxIndex(fs.geo) && GeoOk(fs.geo) && Ok(fs) && Decode(fs.geo, n) == InInode(n)
  {
    hide BitMeans, Counted, GroupPlaced, HoldersOk, BlockOk, AddrsApart;
    GrowReady(fs, ino, n) by {
      assert n < GrowthLimit(fs.geo);
    }
  }

  lemma GrownLast(fs: Fs, ino: Inode, n: nat, fs': Fs, ino': Inode)
    requires Grown(fs, ino, n, fs', ino', n + 1) && n < 12
    ensures Ok(fs) && Ok(fs') && Direct(ino', n) in FreeBlocks(fs) && Direct(ino', n) !in FreeBlocks(fs')
    ensures forall i :: 0 <= i < n ==> Direct(ino', i) == Direct(ino, i)
  {
    hide BitMeans, Counted, GroupPlaced, FreeBit, HoldersOk, AddrsApart, FreeBlocks, Recorded, SameHolders, HoldersNew, Keeps, MaxIndex, Direct;
    var a := Direct(ino', n);
    assert GetAddr(fs', ino', n) == a;
    assert BlockOk(fs', ino', SecondOf(ino'), n);
    FreeBlocksHas(fs, a);
    FreeBlocksHas(fs', a);
    forall i | 0 <= i < n ensures Direct(ino', i) == Direct(ino, i) {
      assert GetAddr(fs', ino', i) == GetAddr(fs, ino, i);
    }
  }

  lemma OneGone(s: set<nat>, t: set<nat>, a: nat)
    requires t <= s && |t| == |s| - 1 && a in s && a !in t
    ensures t == s - {a}
  {
    SubsetEqual(t, s - {a});
  }

  lemma SubsetEqual(s: set<nat>, t: set<nat>)
    requires s <= t && |s| == |t|
    ensures s == t
  {
    assert t == s + (t - s);
    assert |t - s| == 0;
  }

  /** What growth from `n` to `m` blocks takes: the blocks, and the pointer blocks the file still lacks. */
  function Need(geo: Geometry, ino: Inode, n: nat, m: nat): nat {
    if m <= n then 0
    else
      (m - n) + (if m > 12 && Word(ino, SINGLY) == 0 then 1 else 0)
        + (if m > 12 + PerBlock(geo) && Word(ino, DOUBLY) == 0 then 2 else 0)
  }

  lemma SlotIs(geo: Geometry, n: nat)
    requires GeoOk(geo) && n < MaxIndex(geo)
    ensures PerBlock(geo) > 0
    ensures Decode(geo, n).InInode? <==> n < 12
    ensures Decode(geo, n).InSingly? <==> 12 <= n < 12 + PerBlock(geo)
    ensures Decode(geo, n).InSecond? <==> 12 + PerBlock(geo) <= n
  {
  }

  /** A file past the direct blocks has its singly indirect block, and so on. */
  lemma HasHolders(fs: Fs, ino: Inode, n: nat)
    requires FileOk(fs, ino, SecondOf(ino), n)
    ensures n > 12 ==> Word(ino, SINGLY) != 0
    ensures n > 12 + PerBlock(fs.geo) ==> Word(ino, DOUBLY) != 0
  {
    hide BitMeans, Counted, GroupPlaced, FreeBit, HoldersOk, AddrsApart, Decode, MaxIndex;
    if n > 12 {
      SlotIs(fs.geo, 12);
      assert BlockOk(fs, ino, SecondOf(ino), 12);
    }
    if n > 12 + PerBlock(fs.geo) {
      SlotIs(fs.geo, 12 + PerBlock(fs.geo));
      assert BlockOk(fs, ino, SecondOf(ino), 12 + PerBlock(fs.geo));
    }
  }

  /** A turn gives the file the pointer blocks of its slot and no others. */
  lemma GrowPointers(fs: Fs, ino: Inode, n: nat)
    requires FileOk(fs, ino, SecondOf(ino), n) && n < GrowthLimit(fs.geo) && n < MaxIndex(fs.geo) && Grow(fs, ino, n).Some?
    ensures var ino' := Grow(fs, ino, n).value.1;
      && (Word(ino', SINGLY) == 0 <==> Word(ino, SINGLY) == 0 && !Decode(fs.geo, n).InSingly?)
      && (Word(ino', DOUBLY) == 0 <==> Word(ino, DOUBLY) == 0 && !Decode(fs.geo, n).InSecond?)
  {
    hide BitMeans, Counted, GroupPlaced, FreeBit, Ext2Alloc.AllocBlock, PutInode, HoldersOk, BlockOk, AddrsApart, Decode,
      Prepare, PutSlot, Word;
    AllocKeeps(fs);
    var (vol1, nr) := AllocBlock(fs.geo, fs.vol, fs.lay).value;
    var fs1, slot := fs.(vol := vol1), Decode(fs.geo, n);
    PreparePointers(fs1, ino, slot);
    DecodeEncode(fs.geo, n);
    var (fs2, ino2) := Prepare(fs1, ino, slot).value;
    PutSlotPointers(fs2, ino2, slot, nr);
  }

  lemma PutSlotPointers(fs: Fs, ino: Inode, slot: Slot, v: u32)
    requires SlotOk(fs.geo, slot)
    ensures var ino' := PutSlot(fs, ino, slot, v).1;
      Word(ino', SINGLY) == Word(ino, SINGLY) && Word(ino', DOUBLY) == Word(ino, DOUBLY)
  {
  }

  lemma PreparePointers(fs: Fs, ino: Inode, slot: Slot)
    requires Ok(fs) && InodeOk(fs.geo, ino) && Prepare(fs, ino, slot).Some?
    ensures var ino' := Prepare(fs, ino, slot).value.1;
      && (Word(ino', SINGLY) == 0 <==> Word(ino, SINGLY) == 0 && !slot.InSingly?)
      && (Word(ino', DOUBLY) == 0 <==> Word(ino, DOUBLY) == 0 && !slot.InSecond?)
  {
    hide BitMeans, Counted, GroupPlaced, FreeBit, Ext2Alloc.AllocBlock, PutInode;
    if AllocBlock(fs.geo, fs.vol, fs.lay).Some? {
      AllocKeeps(fs);
    }
  }

  lemma NeedStep(fs: Fs, ino: Inode, n: nat, m: nat)
    requires FileOk(fs, ino, SecondOf(ino), n) && n < m <= GrowthLimit(fs.geo) && n < MaxIndex(fs.geo) && Grow(fs, ino, n).Some?
    ensures Need(fs.geo, ino, n, m) ==
      1 + Missing(ino, Decode(fs.geo, n)) + Need(fs.geo, Grow(fs, ino, n).value.1, n + 1, m)
  {
    hide FsOk, FileOk, Grow, Grown, Decode, Word, MaxIndex, GrowthLimit;
    GrowPointers(fs, ino, n);
    HasHolders(fs, ino, n);
    FileGeo(fs, ino, n);
    SlotIs(fs.geo, n);
    var ino' := Grow(fs, ino, n).value.1;
    var fs' := Grow(fs, ino, n).value.0;
    GrowOk(fs, ino, n);
    GrownFile(fs, ino, n, fs', ino', n + 1);
    HasHolders(fs', ino', n + 1);
  }

  lemma GrownFile(fs: Fs, ino: Inode, n: nat, fs': Fs, ino': Inode, m: nat)
    requires Grown(fs, ino, n, fs', ino', m)
    ensures FileOk(fs', ino', SecondOf(ino'), m) && fs'.geo == fs.geo
  {
  }

  lemma NeedAtLeast(fs: Fs, ino: Inode, n: nat, m: nat)
    requires FileOk(fs, ino, SecondOf(ino), n) && n < m && n < MaxIndex(fs.geo)
    ensures Need(fs.geo, ino, n, m) >= 1 + Missing(ino, Decode(fs.geo, n))
  {
    hide FsOk, FileOk, Decode, Word, MaxIndex;
    FileGeo(fs, ino, n);
    SlotIs(fs.geo, n);
  }

  lemma FileGeo(fs: Fs, ino: Inode, n: nat)
    requires FileOk(fs, ino, SecondOf(ino), n)
    ensures GeoOk(fs.geo) && Ok(fs) && InodeOk(fs.geo, ino)
  {
  }

  /** The loop of `resize` reaches its end exactly when what it needs is free. */
  lemma {:induction false} GrowToCost(fs: Fs, ino: Inode, n: nat, m: nat)
    requires FileOk(fs, ino, SecondOf(ino), n) && m <= GrowthLimit(fs.geo)
    ensures GrowTo(fs, ino, n, m).Some? <==> FreeCount(fs) >= Need(fs.geo, ino, n, m)
    ensures GrowTo(fs, ino, n, m).Some? ==>
      TakesLowest(fs, GrowTo(fs, ino, n, m).value.0, Need(fs.geo, ino, n, m))
    decreases m - n
  {
    hide FsOk, FileOk, Grow, Decode, Missing, FreeBlocks, Need, GrowthLimit, Grown;
    FileGeo(fs, ino, n);
    if n < m {
      GrowReady(fs, ino, n);
      GrowCost(fs, ino, n);
      NeedAtLeast(fs, ino, n, m);
      if Grow(fs, ino, n).Some? {
        GrowOk(fs, ino, n);
        var (fs1, ino1) := Grow(fs, ino, n).value;
        GrownFile(fs, ino, n, fs1, ino1, n + 1);
        NeedStep(fs, ino, n, m);
        GrowToCost(fs1, ino1, n + 1, m);
        if GrowTo(fs1, ino1, n + 1, m).Some? {
          TakesTransitive(fs, fs1, GrowTo(fs, ino, n, m).value.0, 1 + Missing(ino, Decode(fs.geo, n)), Need(fs.geo, ino1, n + 1, m));
        }
      }
    } else {
      NeedNothing(fs.geo, ino, n, m);
    }
  }

  lemma NeedNothing(geo: Geometry, ino: Inode, n: nat, m: nat)
    requires m <= n
    ensures Need(geo, ino, n, m) == 0
  {
  }

  lemma NeedPositive(geo: Geometry, ino: Inode, n: nat, m: nat)
    ensures Need(geo, ino, n, m) > 0 <==> n < m
  {
  }

  /** `resize` panics exactly when fewer blocks are free than the growth and its pointer blocks need. */
  lemma ResizeIff(fs: Fs, ino: Inode, newSize: nat)
    requires GeoOk(fs.geo) && FileOk(fs, ino, SecondOf(ino), BlockCount(fs.geo, Word(ino, SIZE)))
    requires BlockCount(fs.geo, newSize) <= GrowthLimit(fs.geo)
    ensures Resize(fs, ino, newSize).Some? <==>
      FreeCount(fs) >= Need(fs.geo, ino, BlockCount(fs.geo, Word(ino, SIZE)), BlockCount(fs.geo, newSize))
  {
    hide FsOk, FileOk, FreeCount, GrowthLimit, BlockCount, PutInode, Sized32;
    GrowToCost(fs, ino, BlockCount(fs.geo, Word(ino, SIZE)), BlockCount(fs.geo, newSize));
  }
}
