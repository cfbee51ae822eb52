/** Growth past its limit: the entries of the doubly indirect block that `set_block_address` never fills (src/fs/ext2.rs). */
module Ext2Gap {
  import opened Arith
  import opened Bits
  import opened Options
  import opened Disks
  import opened Ahci
  import opened Ext2Layout
  import opened Ext2Alloc
  import opened Ext2File
  import opened Ext2Space

  // -------- what growth leaves in the doubly indirect block --------

  /** Every entry of block `d` but the first is the same in both. */
  ghost predicate Stale(fs: Fs, fs': Fs, d: nat) {
    fs'.geo == fs.geo && forall k :: 0 < k < PerBlock(fs.geo) ==> PtrIn(fs'.vol, d, k) == PtrIn(fs.vol, d, k)
  }

  lemma StaleSame(fs: Fs, fs': Fs, d: nat)
    requires fs'.geo == fs.geo && d < |fs.vol| == |fs'.vol| && fs'.vol[d] == fs.vol[d]
    ensures Stale(fs, fs', d)
  {
  }

  lemma StaleTransitive(fs: Fs, fs1: Fs, fs2: Fs, d: nat)
    requires Stale(fs, fs1, d) && Stale(fs1, fs2, d)
    ensures Stale(fs, fs2, d)
  {
  }

  lemma StalePut(fs: Fs, d: nat, e: u32)
    requires Ok(fs) && d < |fs.vol|
    ensures Stale(fs, fs.(vol := PutPtr(fs.vol, d, 0, e)), d)
  {
    hide BitMeans, Counted, GroupPlaced, PutPtr, PtrIn;
    forall k | 0 < k < PerBlock(fs.geo) ensures PtrIn(PutPtr(fs.vol, d, 0, e), d, k) == PtrIn(fs.vol, d, k) {
      PtrOfPut(fs.geo, fs.vol, d, 0, e, d, k);
    }
  }

  /** The new doubly indirect block is not cleared. */
  lemma GiveDoubleStale(fs: Fs, ino: Inode)
    requires Ok(fs) && InodeOk(fs.geo, ino) && GiveDouble(fs, ino, 0).Some?
    ensures var (fs', ino') := GiveDouble(fs, ino, 0).value; Stale(fs, fs', Word(ino', DOUBLY))
  {
    hide BitMeans, Counted, GroupPlaced, FreeBit, Ext2Alloc.AllocBlock, PutInode, Stale, Keeps;
    AllocSameData(fs);
    AllocKeeps(fs);
    var (vol1, d) := AllocBlock(fs.geo, fs.vol, fs.lay).value;
    var fs1, ino1 := fs.(vol := vol1), SetWord(ino, DOUBLY, d);
    PutInodeOk(fs1, ino1);
    PutInodeGeo(fs1, ino1);
    var fs2 := PutInode(fs1, ino1);
    AllocSameData(fs2);
    AllocKeeps(fs2);
    var (vol3, e) := AllocBlock(fs2.geo, fs2.vol, fs2.lay).value;
    var fs3 := fs2.(vol := vol3);
    assert fs3.vol[d] == fs.vol[d];
    StaleSame(fs, fs3, d);
    KeepsOk(fs2, fs3);
    StalePut(fs3, d, e);
    StaleTransitive(fs, fs3, fs3.(vol := PutPtr(fs3.vol, d, 0, e)), d);
  }

  lemma KeepsOk(fs: Fs, fs': Fs)
    requires Keeps(fs, fs', {})
    ensures Ok(fs') && |fs'.vol| == |fs.vol|
  {
  }

  /** An allocation changes only bitmaps and descriptors. */
  lemma AllocSameData(fs: Fs)
    requires Ok(fs) && AllocBlock(fs.geo, fs.vol, fs.lay).Some?
    ensures var vol' := AllocBlock(fs.geo, fs.vol, fs.lay).value.0;
      && |vol'| == |fs.vol| && AllocBlock(fs.geo, fs.vol, fs.lay).value.1 < |fs.vol|
      && fs.lay.roles[AllocBlock(fs.geo, fs.vol, fs.lay).value.1] == Data
      && forall b :: 0 <= b < |fs.vol| && Plain(fs.lay, b) ==> vol'[b] == fs.vol[b]
  {
    hide BitMeans, Counted, GroupPlaced, FreeBit, Ext2Alloc.AllocBlock;
    AllocBlockIff(fs.geo, fs.vol, fs.lay);
  }

  /** One turn of growth fills no entry of the doubly indirect block but the first. */
  lemma GrowStale(fs: Fs, ino: Inode, n: nat)
    requires FileOk(fs, ino, SecondOf(ino), n) && n < GrowthLimit(fs.geo) && Grow(fs, ino, n).Some?
    ensures var (fs', ino') := Grow(fs, ino, n).value;
      Word(ino', DOUBLY) != 0 ==> Stale(fs, fs', Word(ino', DOUBLY))
  {
    hide BitMeans, Counted, GroupPlaced, FreeBit, Ext2Alloc.AllocBlock, PutInode, Stale, BlockOk, AddrsApart, Decode, Prepare, PutSlot, Keeps;
    GrowReady(fs, ino, n);
    DecodeEncode(fs.geo, n);
    AllocSameData(fs);
    AllocKeeps(fs);
    var (vol1, nr) := AllocBlock(fs.geo, fs.vol, fs.lay).value;
    var fs1, slot := fs.(vol := vol1), Decode(fs.geo, n);
    var (fs2, ino2) := Prepare(fs1, ino, slot).value;
    GrowPrepared(fs, ino, n, fs2, ino2);
    StoreGrown(fs2, ino2, n, nr);
    PutSlotPointers(fs2, ino2, slot, nr);
    if Word(ino2, DOUBLY) != 0 {
      var d := Word(ino2, DOUBLY);
      if Word(ino, DOUBLY) != 0 {
        assert HolderIn(fs, ino, SecondOf(ino), Double) && Good(fs, HolderAt(fs, ino, Double));
      }
      KeepsOk(fs, fs1);
      PrepareStale(fs, fs1, ino, slot);
      StoreStale(fs2, ino2, SecondOf(ino2), slot, nr);
      var fs' := Grow(fs, ino, n).value.0;
      StaleTransitive(fs, fs2, fs', d);
    }
  }

  lemma PrepareStale(fs: Fs, fs1: Fs, ino: Inode, slot: Slot)
    requires Ok(fs) && Ok(fs1) && fs1.geo == fs.geo && fs1.lay == fs.lay && |fs1.vol| == |fs.vol| && InodeOk(fs.geo, ino)
    requires forall b :: 0 <= b < |fs.vol| && Plain(fs.lay, b) ==> fs1.vol[b] == fs.vol[b]
    requires Prepare(fs1, ino, slot).Some? && (slot.InSecond? ==> slot.k == 0)
    requires Word(ino, DOUBLY) != 0 ==> Good(fs, Word(ino, DOUBLY))
    ensures var (fs2, ino2) := Prepare(fs1, ino, slot).value;
      Word(ino2, DOUBLY) != 0 ==> Stale(fs, fs2, Word(ino2, DOUBLY))
  {
    hide BitMeans, Counted, GroupPlaced, FreeBit, Ext2Alloc.AllocBlock, PutInode, Stale, GiveSingle, GiveDouble;
    var (fs2, ino2) := Prepare(fs1, ino, slot).value;
    if Word(ino, DOUBLY) != 0 {
      if slot.InSingly? && Word(ino, SINGLY) == 0 {
        GiveSingleSame(fs1, ino);
      }
      StaleSame(fs, fs2, Word(ino, DOUBLY));
    } else if slot.InSecond? {
      GiveDoubleBlockIs(fs1, ino);
      GiveDoubleStale(fs1, ino);
      StaleSame(fs, fs1, Word(ino2, DOUBLY));
      StaleTransitive(fs, fs1, fs2, Word(ino2, DOUBLY));
    } else if slot.InSingly? && Word(ino, SINGLY) == 0 {
      GiveSingleSame(fs1, ino);
    }
  }

  lemma GiveSingleSame(fs: Fs, ino: Inode)
    requires Ok(fs) && InodeOk(fs.geo, ino) && GiveSingle(fs, ino).Some?
    ensures var (fs', ino') := GiveSingle(fs, ino).value;
      && Word(ino', DOUBLY) == Word(ino, DOUBLY) && |fs'.vol| == |fs.vol| && fs'.lay == fs.lay
      && forall b :: 0 <= b < |fs.vol| && fs.lay.roles[b] == Data ==> fs'.vol[b] == fs.vol[b]
  {
    hide BitMeans, Counted, GroupPlaced, FreeBit, Ext2Alloc.AllocBlock, PutInode, Keeps;
    AllocSameData(fs);
    AllocKeeps(fs);
    var (vol1, s) := AllocBlock(fs.geo, fs.vol, fs.lay).value;
    var fs1, ino1 := fs.(vol := vol1), SetWord(ino, SINGLY, s);
    KeepsOk(fs, fs1);
    PutInodeOk(fs1, ino1);
    PutInodeGeo(fs1, ino1);
  }

  lemma GiveDoubleBlockIs(fs: Fs, ino: Inode)
    requires Ok(fs) && InodeOk(fs.geo, ino) && GiveDouble(fs, ino, 0).Some?
    ensures var d := Word(GiveDouble(fs, ino, 0).value.1, DOUBLY); d < |fs.vol| && fs.lay.roles[d] == Data
  {
    hide BitMeans, Counted, GroupPlaced, FreeBit, Ext2Alloc.AllocBlock, PutInode, Keeps;
    AllocSameData(fs);
    AllocKeeps(fs);
  }

  /** The store of a turn goes to a pointer block below the doubly indirect one, or to the inode. */
  lemma StoreStale(fs: Fs, ino: Inode, second: set<nat>, slot: Slot, v: u32)
    requires Ok(fs) && InodeOk(fs.geo, ino) && HoldersOk(fs, ino, second) && SlotIn(fs, ino, second, slot) && Word(ino, DOUBLY) != 0
    ensures var (fs', ino') := PutSlot(fs, ino, slot, v);
      && Ok(fs') && InodeOk(fs'.geo, ino')
      && Stale(fs, if slot.InInode? then PutInode(fs', ino') else fs', Word(ino, DOUBLY))
  {
    hide BitMeans, Counted, GroupPlaced, FreeBit, PutInode, Stale, Keeps;
    var d := Word(ino, DOUBLY);
    assert HolderIn(fs, ino, second, Double) && Good(fs, HolderAt(fs, ino, Double));
    if slot.InInode? {
      var ino' := PutSlot(fs, ino, slot, v).1;
      PutInodeOk(fs, ino');
      PutInodeGeo(fs, ino');
      StaleSame(fs, PutInode(fs, ino'), d);
    } else {
      var h := if slot.InSingly? then Single else Second(slot.k);
      assert HoldersApart(fs, ino, second, Double, h) && Good(fs, HolderAt(fs, ino, h));
      PutSlotHolders(fs, ino, second, slot, v);
      StaleSame(fs, PutSlot(fs, ino, slot, v).0, d);
    }
  }

  lemma GrownPieces(fs: Fs, ino: Inode, n: nat, fs': Fs, ino': Inode, m: nat)
    requires Grown(fs, ino, n, fs', ino', m)
    ensures Keeps(fs, fs', HolderBlocks(fs', ino', SecondOf(ino')))
    ensures Word(ino, DOUBLY) != 0 ==> Word(ino', DOUBLY) == Word(ino, DOUBLY)
    ensures Word(ino, DOUBLY) == 0 && Word(ino', DOUBLY) != 0 ==> IsFree(fs.geo, fs.vol, fs.lay, Word(ino', DOUBLY))
  {
    hide BitMeans, Counted, GroupPlaced, FreeBit, HoldersOk, BlockOk, AddrsApart, Recorded, HolderBlocks;
    if Word(ino, DOUBLY) != 0 {
      assert HolderIn(fs, ino, SecondOf(ino), Double);
    } else if Word(ino', DOUBLY) != 0 {
      assert HolderIn(fs', ino', SecondOf(ino'), Double);
      assert HolderWasFree(fs, ino, SecondOf(ino), fs', ino', Double);
    }
  }

  /**
    However far a file grows within the limit, its doubly indirect block holds behind its
    first entry what it held before; where growth allocated it, that is what it held while free.
   */
  lemma {:induction false} GrowToStale(fs: Fs, ino: Inode, n: nat, m: nat)
    requires FileOk(fs, ino, SecondOf(ino), n) && m <= GrowthLimit(fs.geo) && GrowTo(fs, ino, n, m).Some?
    ensures var (fs', ino') := GrowTo(fs, ino, n, m).value;
      Word(ino', DOUBLY) != 0 ==>
        && Stale(fs, fs', Word(ino', DOUBLY))
        && (Word(ino, DOUBLY) != 0 || IsFree(fs.geo, fs.vol, fs.lay, Word(ino', DOUBLY)))
    decreases m - n
  {
    hide BitMeans, Counted, GroupPlaced, FreeBit, HoldersOk, BlockOk, AddrsApart, Recorded, HolderBlocks, Stale, Grow, Grown;
    var (fs', ino') := GrowTo(fs, ino, n, m).value;
    GrownPieces(fs, ino, n, fs', ino', Most(n, m));
    var d := Word(ino', DOUBLY);
    if n >= m {
      StaleSelf(fs, d);
    } else if d != 0 {
      GrowOk(fs, ino, n);
      GrowStale(fs, ino, n);
      var (fs1, ino1) := Grow(fs, ino, n).value;
      GrownFile(fs, ino, n, fs1, ino1, n + 1);
      GrownPieces(fs, ino, n, fs1, ino1, n + 1);
      GrowToStale(fs1, ino1, n + 1, m);
      GrownPieces(fs1, ino1, n + 1, fs', ino', m);
      if Word(ino1, DOUBLY) == 0 {
        StaleSame(fs, fs1, d);
      }
      StaleTransitive(fs, fs1, fs', d);
    }
  }

  lemma StaleSelf(fs: Fs, d: nat)
    ensures Stale(fs, fs, d)
  {
  }

  // -------- one turn past the limit --------

  /** The number that the code takes for the second-level block of index `n`. */
  function Found(fs: Fs, ino: Inode, n: nat): u32
    requires GeoOk(fs.geo) && n < MaxIndex(fs.geo) && Decode(fs.geo, n).InSecond?
  {
    PtrIn(fs.vol, Word(ino, DOUBLY), Decode(fs.geo, n).k)
  }

  /** Every block in use before, of whatever kind, is as the allocation alone would have left it. */
  ghost predicate UsedKept(fs: Fs, fs1: Fs, fs': Fs)
    requires Ok(fs)
  {
    && |fs1.vol| == |fs'.vol| == |fs.vol|
    && forall b :: 0 <= b < |fs.vol| && !IsFree(fs.geo, fs.vol, fs.lay, b) ==> fs'.vol[b] == fs1.vol[b]
  }

  lemma PastLimitStore(fs: Fs, ino: Inode, n: nat)
    requires Ok(fs) && InodeOk(fs.geo, ino) && Word(ino, DOUBLY) != 0 && Good(fs, Word(ino, DOUBLY)) && n < MaxIndex(fs.geo)
    requires Decode(fs.geo, n).InSecond? && AllocBlock(fs.geo, fs.vol, fs.lay).Some?
    ensures var (vol1, nr) := AllocBlock(fs.geo, fs.vol, fs.lay).value;
      && 0 < nr < 0x1_0000_0000 && |vol1| == |fs.vol| && PtrIn(vol1, Word(ino, DOUBLY), Decode(fs.geo, n).k) == Found(fs, ino, n)
      && Grow(fs, ino, n) == Some((fs.(vol := PutPtr(vol1, Found(fs, ino, n), Decode(fs.geo, n).r, nr)), ino))
  {
    hide BitMeans, Counted, GroupPlaced, FreeBit, Ext2Alloc.AllocBlock, BlockOk, AddrsApart, Decode, Keeps;
    DecodeEncode(fs.geo, n);
    AllocSameData(fs);
    AllocKeeps(fs);
  }

  // -------- the same turn on the disk --------

  /** A word stored at a byte of the disk, whatever lies there; `None` is the panic on sectors that do not exist. */
  function StoreWord(disk: seq<byte>, at: nat, v: u32): Option<seq<byte>> {
    if WithinDisk(|disk|, at, 4) && at + 4 <= |disk| then Some(Splice(disk, at, Le32(v))) else None
  }

  /** A turn of growth at index `n`, under a doubly indirect block: `disk` is as the allocation, of block `nr`, has left it. */
  datatype Turn = Turn(fs: Fs, ino: Inode, n: nat, vol1: Volume, nr: u32, disk: seq<byte>)

  ghost predicate TurnReady(t: Turn) {
    && Ok(t.fs) && InodeOk(t.fs.geo, t.ino) && Word(t.ino, DOUBLY) != 0 && Good(t.fs, Word(t.ino, DOUBLY))
    && t.n < MaxIndex(t.fs.geo) && Decode(t.fs.geo, t.n).InSecond?
    && AllocBlock(t.fs.geo, t.fs.vol, t.fs.lay) == Some((t.vol1, t.nr as nat)) && Holds(t.disk, t.fs.geo, t.vol1)
  }

  /** Where the code stores the new block's number: it checks neither the entry it follows nor the range. */
  function Target(t: Turn): nat
    requires GeoOk(t.fs.geo) && t.n < MaxIndex(t.fs.geo) && Decode(t.fs.geo, t.n).InSecond?
  {
    BlockStart(t.fs.geo, Found(t.fs, t.ino, t.n)) + 4 * Decode(t.fs.geo, t.n).r
  }

  function Outcome(t: Turn): Option<seq<byte>>
    requires GeoOk(t.fs.geo) && t.n < MaxIndex(t.fs.geo) && Decode(t.fs.geo, t.n).InSecond?
  {
    StoreWord(t.disk, Target(t), t.nr)
  }

  ghost predicate InFree(fs: Fs, i: nat)
    requires Ok(fs)
  {
    exists b: nat :: b < |fs.vol| && IsFree(fs.geo, fs.vol, fs.lay, b) && BlockStart(fs.geo, b) <= i < BlockStart(fs.geo, b) + fs.geo.blockSize
  }

  /** Every byte of the disk but those of free blocks is as the allocation left it, inside the partition and outside. */
  ghost predicate Undamaged(t: Turn, disk: seq<byte>)
    requires Ok(t.fs)
  {
    |disk| == |t.disk| && forall i :: 0 <= i < |disk| && !InFree(t.fs, i) ==> disk[i] == t.disk[i]
  }

  /** The four bytes of a word are those of one block at most. */
  lemma OwnBlock(geo: Geometry, e: nat, b: nat, r: nat, i: nat)
    requires GeoOk(geo) && r < PerBlock(geo) && BlockStart(geo, e) + 4 * r <= i < BlockStart(geo, e) + 4 * r + 4
    requires BlockStart(geo, b) <= i < BlockStart(geo, b) + geo.blockSize
    ensures b == e
  {
    hide BlockStart;
    if e < b {
      BlocksApart(geo, e, b);
      assert false;
    } else if b < e {
      BlocksApart(geo, b, e);
      assert false;
    }
  }

  /** Storing a word changes one of its bytes exactly when the word was another. */
  lemma StoreChanges(disk: seq<byte>, at: nat, v: u32)
    requires at + 4 <= |disk|
    ensures U32(disk, at) == v ==> Splice(disk, at, Le32(v)) == disk
    ensures U32(disk, at) != v ==> exists i :: at <= i < at + 4 && Splice(disk, at, Le32(v))[i] != disk[i]
    ensures forall i :: 0 <= i < |disk| && !(at <= i < at + 4) ==> Splice(disk, at, Le32(v))[i] == disk[i]
  {
    if U32(disk, at) == v {
      WordBack(disk, at, v);
    } else {
      Le32RoundTrip(v);
      var s := Splice(disk, at, Le32(v));
      if s[at] == disk[at] && s[at + 1] == disk[at + 1] && s[at + 2] == disk[at + 2] && s[at + 3] == disk[at + 3] {
        assert false;
      }
    }
  }

  /**
    A turn at an index whose second-level block the file need not have neither panics nor
    damages anything in use, on the whole disk, exactly when its target is on the disk and
    lies in a free block of the volume, or holds the word already.
   */
  lemma PastLimitIff(t: Turn)
    requires TurnReady(t)
    ensures var e := Found(t.fs, t.ino, t.n);
      Outcome(t).Some? && Undamaged(t, Outcome(t).value) <==>
        && WithinDisk(|t.disk|, Target(t), 4) && Target(t) + 4 <= |t.disk|
        && ((e < |t.fs.vol| && IsFree(t.fs.geo, t.fs.vol, t.fs.lay, e)) || U32(t.disk, Target(t)) == t.nr)
  {
    hide BitMeans, Counted, GroupPlaced, FreeBit, Ext2Alloc.AllocBlock, Decode, BlockStart, Splice, Holds, WithinDisk, Undamaged, Target, IsFree, Good;
    if Outcome(t).Some? {
      StoreChanges(t.disk, Target(t), t.nr);
      if U32(t.disk, Target(t)) == t.nr {
        UndamagedSame(t);
      } else {
        var i :| Target(t) <= i < Target(t) + 4 && Outcome(t).value[i] != t.disk[i];
        TargetOwner(t, i);
        if Found(t.fs, t.ino, t.n) < |t.fs.vol| && IsFree(t.fs.geo, t.fs.vol, t.fs.lay, Found(t.fs, t.ino, t.n)) {
          FreeTarget(t);
        } else {
          Damaged(t, i);
        }
      }
    }
  }

  lemma UndamagedSame(t: Turn)
    requires Ok(t.fs)
    ensures Undamaged(t, t.disk)
  {
  }

  lemma Damaged(t: Turn, i: nat)
    requires TurnReady(t) && Outcome(t).Some? && i < |t.disk| && Outcome(t).value[i] != t.disk[i] && !InFree(t.fs, i)
    ensures !Undamaged(t, Outcome(t).value)
  {
    hide BitMeans, Counted, GroupPlaced, FreeBit, Ext2Alloc.AllocBlock, Decode, BlockStart, Holds, WithinDisk, Target, IsFree, InFree;
  }

  /** A byte of the target lies in a free block exactly when the number followed is that of one. */
  lemma TargetOwner(t: Turn, i: nat)
    requires TurnReady(t) && Target(t) <= i < Target(t) + 4
    ensures var e := Found(t.fs, t.ino, t.n); InFree(t.fs, i) <==> e < |t.fs.vol| && IsFree(t.fs.geo, t.fs.vol, t.fs.lay, e)
  {
    hide BitMeans, Counted, GroupPlaced, FreeBit, Ext2Alloc.AllocBlock, Decode, BlockStart, Holds, IsFree;
    DecodeEncode(t.fs.geo, t.n);
    TargetInBlock(t, i);
    if InFree(t.fs, i) {
      var b: nat :| b < |t.fs.vol| && IsFree(t.fs.geo, t.fs.vol, t.fs.lay, b)
        && BlockStart(t.fs.geo, b) <= i < BlockStart(t.fs.geo, b) + t.fs.geo.blockSize;
      OwnBlock(t.fs.geo, Found(t.fs, t.ino, t.n), b, Decode(t.fs.geo, t.n).r, i);
    }
  }

  lemma FreeTarget(t: Turn)
    requires TurnReady(t) && Outcome(t).Some?
    requires var e := Found(t.fs, t.ino, t.n); e < |t.fs.vol| && IsFree(t.fs.geo, t.fs.vol, t.fs.lay, e)
    ensures Undamaged(t, Outcome(t).value)
  {
    hide BitMeans, Counted, GroupPlaced, FreeBit, Ext2Alloc.AllocBlock, Decode, BlockStart, Splice, Holds, WithinDisk, Target, IsFree, Good, InFree;
    StoreChanges(t.disk, Target(t), t.nr);
    forall i | 0 <= i < |t.disk| && !InFree(t.fs, i) ensures Outcome(t).value[i] == t.disk[i] {
      if Target(t) <= i < Target(t) + 4 {
        TargetOwner(t, i);
      }
    }
  }

  lemma TargetInBlock(t: Turn, i: nat)
    requires TurnReady(t) && Target(t) <= i < Target(t) + 4
    ensures var e := Found(t.fs, t.ino, t.n); BlockStart(t.fs.geo, e) <= i < BlockStart(t.fs.geo, e) + t.fs.geo.blockSize
  {
    hide BitMeans, Counted, GroupPlaced, FreeBit, Ext2Alloc.AllocBlock, Decode, BlockStart, Holds;
    DecodeEncode(t.fs.geo, t.n);
  }

  /** A byte behind the partition is another. */
  ghost predicate ChangedBehind(t: Turn, disk: seq<byte>) {
    exists i :: BlockStart(t.fs.geo, |t.fs.vol|) <= i < |disk| && i < |t.disk| && disk[i] != t.disk[i]
  }

  /** Inside the volume the outcome is what `Grow` says; past it the volume keeps what the allocation left, and the disk behind it does not. */
  lemma TurnOnVolume(t: Turn)
    requires TurnReady(t)
    ensures var e := Found(t.fs, t.ino, t.n);
      && Grow(t.fs, t.ino, t.n).Some?
      && (e < |t.fs.vol| && Outcome(t).Some? ==> Holds(Outcome(t).value, t.fs.geo, Grow(t.fs, t.ino, t.n).value.0.vol))
      && (e >= |t.fs.vol| ==> Target(t) >= BlockStart(t.fs.geo, |t.fs.vol|))
      && (e >= |t.fs.vol| && Outcome(t).Some? && U32(t.disk, Target(t)) != t.nr ==> ChangedBehind(t, Outcome(t).value))
  {
    hide BitMeans, Counted, GroupPlaced, FreeBit, Ext2Alloc.AllocBlock, Decode, BlockStart, Splice, Holds, WithinDisk, Grow;
    var e, r := Found(t.fs, t.ino, t.n), Decode(t.fs.geo, t.n).r;
    DecodeEncode(t.fs.geo, t.n);
    PastLimitStore(t.fs, t.ino, t.n);
    AllocKeeps(t.fs);
    KeepsOk(t.fs, t.fs.(vol := t.vol1));
    if e < |t.fs.vol| {
      WriteInBlock(t.disk, t.fs.geo, t.vol1, e, 4 * r, Le32(t.nr));
    } else {
      if e > |t.fs.vol| {
        BlocksApart(t.fs.geo, |t.fs.vol|, e);
      }
      if Outcome(t).Some? {
        StoreChanges(t.disk, Target(t), t.nr);
      }
    }
  }

  /** A store changes its block exactly when the word there was another. */
  lemma PutPtrChanges(geo: Geometry, vol: Volume, e: nat, r: nat, v: u32)
    requires Sized(geo, vol) && r < PerBlock(geo)
    ensures |PutPtr(vol, e, r, v)| == |vol|
    ensures e < |vol| ==> (PutPtr(vol, e, r, v)[e] == vol[e] <==> PtrIn(vol, e, r) == v)
    ensures forall b :: 0 <= b < |vol| && b != e ==> PutPtr(vol, e, r, v)[b] == vol[b]
    ensures e >= |vol| ==> PutPtr(vol, e, r, v) == vol
  {
    if e < |vol| {
      PtrOfPut(geo, vol, e, r, v, e, r);
      if PtrIn(vol, e, r) == v {
        WordBack(vol[e], 4 * r, v);
      }
    }
  }

  lemma WordBack(s: seq<byte>, at: nat, v: u32)
    requires at + 4 <= |s| && U32(s, at) == v
    ensures Splice(s, at, Le32(v)) == s
  {
    BytesOfWord(s[at], s[at + 1], s[at + 2], s[at + 3]);
    assert s[at..at + 4] == [s[at], s[at + 1], s[at + 2], s[at + 3]];
  }

  /**
    Undamaged means what it says: the volume the disk then holds is a well-formed file
    system, in which every record and every file is as before.
   */
  lemma UndamagedKeeps(t: Turn, disk: seq<byte>, g: Inode, second: set<nat>, l: nat)
    requires TurnReady(t) && Undamaged(t, disk) && FileOk(t.fs, g, second, l)
    ensures var fs' := t.fs.(vol := VolumeOn(disk, t.fs.geo, |t.fs.vol|));
      && Ok(fs') && Recorded(t.fs, g, fs', g) && FileOk(fs', g, second, l) && SameAddrs(t.fs, g, fs', g, l)
      && forall j :: 0 <= j < l ==> ContentsKept(t.fs, fs', GetAddr(t.fs, g, j))
  {
    hide BitMeans, Counted, GroupPlaced, FreeBit, Ext2Alloc.AllocBlock, FileOk, Recorded, Holds, UsedKept, BlockStart, VolumeOn, Undamaged, GetAddr,
      Decode;
    UndamagedUsed(t, disk);
    var fs' := t.fs.(vol := VolumeOn(disk, t.fs.geo, |t.fs.vol|));
    UsedKeeps(t.fs, t.fs.(vol := t.vol1), fs', g, second, l);
  }

  lemma UndamagedUsed(t: Turn, disk: seq<byte>)
    requires TurnReady(t) && Undamaged(t, disk)
    ensures var fs' := t.fs.(vol := VolumeOn(disk, t.fs.geo, |t.fs.vol|)); Sized(t.fs.geo, fs'.vol) && UsedKept(t.fs, t.fs.(vol := t.vol1), fs')
  {
    hide BitMeans, Counted, GroupPlaced, FreeBit, Ext2Alloc.AllocBlock, BlockStart, Decode, InFree;
    AllocSameData(t.fs);
    var vol := VolumeOn(disk, t.fs.geo, |t.fs.vol|);
    forall b | 0 <= b < |vol| ensures |vol[b]| == t.fs.geo.blockSize && (!IsFree(t.fs.geo, t.fs.vol, t.fs.lay, b) ==> vol[b] == t.vol1[b]) {
      assert t.vol1[b] == t.disk[BlockStart(t.fs.geo, b)..BlockStart(t.fs.geo, b) + t.fs.geo.blockSize];
      if !IsFree(t.fs.geo, t.fs.vol, t.fs.lay, b) {
        forall i | BlockStart(t.fs.geo, b) <= i < BlockStart(t.fs.geo, b) + t.fs.geo.blockSize ensures disk[i] == t.disk[i] {
          NotInFree(t.fs, b, i);
        }
      }
    }
  }

  lemma NotInFree(fs: Fs, b: nat, i: nat)
    requires Ok(fs) && b < |fs.vol| && !IsFree(fs.geo, fs.vol, fs.lay, b)
    requires BlockStart(fs.geo, b) <= i < BlockStart(fs.geo, b) + fs.geo.blockSize
    ensures !InFree(fs, i)
  {
    hide BitMeans, Counted, GroupPlaced, FreeBit, BlockStart;
    forall c: nat | c < |fs.vol| && BlockStart(fs.geo, c) <= i < BlockStart(fs.geo, c) + fs.geo.blockSize ensures c == b {
      if c < b {
        BlocksApart(fs.geo, c, b);
      } else if b < c {
        BlocksApart(fs.geo, b, c);
      }
    }
  }

  lemma UsedKeeps(fs: Fs, fs1: Fs, fs': Fs, g: Inode, second: set<nat>, l: nat)
    requires Ok(fs) && UsedKept(fs, fs1, fs') && fs'.geo == fs.geo && fs'.lay == fs.lay && Sized(fs.geo, fs'.vol)
    requires AllocBlock(fs.geo, fs.vol, fs.lay).Some? && fs1 == fs.(vol := AllocBlock(fs.geo, fs.vol, fs.lay).value.0)
    requires FileOk(fs, g, second, l)
    ensures Ok(fs') && Recorded(fs, g, fs', g)
    ensures FileOk(fs', g, second, l) && SameAddrs(fs, g, fs', g, l)
    ensures forall j :: 0 <= j < l ==> ContentsKept(fs, fs', GetAddr(fs, g, j))
  {
    hide BitMeans, Counted, GroupPlaced, FreeBit, Ext2Alloc.AllocBlock, BlockOk, AddrsApart, GetAddr, Recorded, Decode;
    AllocKeeps(fs);
    AllocRecords(fs, g);
    FreesAreData(fs);
    PlainWriteOk(fs.geo, fs1.vol, fs.lay, fs'.vol);
    TablesKept(fs1, fs', g);
    RecordedTransitive(fs, g, fs1, g, fs', g);
    FileFrame(fs, fs', g, second, l);
    forall j | 0 <= j < l ensures ContentsKept(fs, fs', GetAddr(fs, g, j)) {
      GoodBlock(fs, g, second, l, j);
    }
  }

  lemma GoodBlock(fs: Fs, g: Inode, second: set<nat>, l: nat, j: nat)
    requires FileOk(fs, g, second, l) && j < l
    ensures Good(fs, GetAddr(fs, g, j))
  {
    assert BlockOk(fs, g, second, j);
  }

  /** The first index past the limit uses entry 1 of the doubly indirect block. */
  lemma FirstGapIndex(geo: Geometry)
    requires GeoOk(geo)
    ensures GrowthLimit(geo) < MaxIndex(geo) && Decode(geo, GrowthLimit(geo)) == InSecond(1, 0)
  {
    var n := PerBlock(geo);
    MulMono(n, 2, n);
    DivModUnique(n, n, 1, 0);
  }

  /** The turn that follows growth to the limit, on a disk as the allocation leaves it. */
  ghost predicate NextTurn(fs: Fs, ino: Inode, n: nat, t: Turn)
    requires FileOk(fs, ino, SecondOf(ino), n)
  {
    && GrowTo(fs, ino, n, GrowthLimit(fs.geo)) == Some((t.fs, t.ino)) && t.n == GrowthLimit(fs.geo)
    && Ok(t.fs) && AllocBlock(t.fs.geo, t.fs.vol, t.fs.lay) == Some((t.vol1, t.nr as nat)) && Holds(t.disk, fs.geo, t.vol1)
  }

  /**
    `resize` from `n` blocks to one past the limit. Let `e` be the second word, before the
    call, of the block that becomes, or was, the doubly indirect one. The last turn neither
    panics nor damages anything in use exactly when its target is on the disk and `e` is
    free before the call with as many free blocks below it as the growth takes, or the word
    to be stored is there already.
   */
  lemma OnePastIff(fs: Fs, ino: Inode, n: nat, t: Turn)
    requires FileOk(fs, ino, SecondOf(ino), n) && n <= GrowthLimit(fs.geo) && NextTurn(fs, ino, n, t)
    ensures TurnReady(t) && t.fs.geo == fs.geo && |t.fs.vol| == |fs.vol|
    ensures var d := Word(t.ino, DOUBLY); if Word(ino, DOUBLY) == 0 then d in FreeBlocks(fs) else d == Word(ino, DOUBLY)
    ensures var e := PtrIn(fs.vol, Word(t.ino, DOUBLY), 1);
      && Found(t.fs, t.ino, t.n) == e && Target(t) == BlockStart(fs.geo, e)
      && (Outcome(t).Some? && Undamaged(t, Outcome(t).value) <==>
            && WithinDisk(|t.disk|, BlockStart(fs.geo, e), 4) && BlockStart(fs.geo, e) + 4 <= |t.disk|
            && ((e in FreeBlocks(fs) && |FreeBelow(fs, e)| >= Need(fs.geo, ino, n, t.n)) || U32(t.disk, BlockStart(fs.geo, e)) == t.nr))
  {
    hide BitMeans, Counted, GroupPlaced, FreeBit, Ext2Alloc.AllocBlock, HoldersOk, BlockOk, AddrsApart, Decode, Grow, Grown,
      Recorded, Undamaged, FreeBlocks, FreeBelow, Need, GrowthLimit, MaxIndex, PtrIn, Holds, BlockStart, WithinDisk, TakesLowest;
    var limit := GrowthLimit(fs.geo);
    GrowToCost(fs, ino, n, limit);
    GrownFile(fs, ino, n, t.fs, t.ino, limit);
    GrownPieces(fs, ino, n, t.fs, t.ino, limit);
    LimitHolders(t.fs, t.ino);
    GrowToStale(fs, ino, n, limit);
    FirstGapIndex(fs.geo);
    PastLimitIff(t);
    var d := Word(t.ino, DOUBLY);
    FreeBlocksHas(fs, d);
    var e := PtrIn(fs.vol, d, 1);
    StillFreeIff(fs, t.fs, Need(fs.geo, ino, n, limit), e);
    FreeBlocksHas(t.fs, e);
    FreeInVolume(t.fs, e);
  }

  /**
    The same two words before the call: the number to be stored is that of the free block
    with as many free ones below it as the growth takes, and a block in use that is no
    pointer block of the file still starts with the word it started with.
   */
  lemma PastWords(fs: Fs, ino: Inode, n: nat, t: Turn, e: nat)
    requires FileOk(fs, ino, SecondOf(ino), n) && n <= GrowthLimit(fs.geo) && NextTurn(fs, ino, n, t)
    ensures var nr: nat := t.nr; nr in FreeBlocks(fs) && |FreeBelow(fs, nr)| == Need(fs.geo, ino, n, t.n)
    ensures Good(fs, e) && e !in HolderBlocks(fs, ino, SecondOf(ino)) ==>
      BlockStart(fs.geo, e) + 4 <= |t.disk| && U32(t.disk, BlockStart(fs.geo, e)) == PtrIn(fs.vol, e, 0)
  {
    hide BitMeans, Counted, GroupPlaced, FreeBit, Ext2Alloc.AllocBlock, HoldersOk, BlockOk, AddrsApart, Decode, Grow, Grown,
      Recorded, FreeBlocks, FreeBelow, Need, GrowthLimit, MaxIndex, BlockStart, TakesLowest, HolderBlocks;
    var limit := GrowthLimit(fs.geo);
    GrowToCost(fs, ino, n, limit);
    NextIs(fs, t.fs, Need(fs.geo, ino, n, limit));
    if Good(fs, e) && e !in HolderBlocks(fs, ino, SecondOf(ino)) {
      GrownPieces(fs, ino, n, t.fs, t.ino, limit);
      GrownSpares(fs, ino, n, t.fs, t.ino, limit, e);
      AllocKeeps(t.fs);
      assert t.vol1[e] == fs.vol[e];
    }
  }

  lemma FreeInVolume(fs: Fs, e: nat)
    requires Ok(fs)
    ensures e in FreeBlocks(fs) ==> e < |fs.vol|
  {
  }

  lemma LimitHolders(fs: Fs, ino: Inode)
    requires GeoOk(fs.geo) && FileOk(fs, ino, SecondOf(ino), GrowthLimit(fs.geo))
    ensures Word(ino, DOUBLY) != 0 && 1 < PerBlock(fs.geo) && Ok(fs) && InodeOk(fs.geo, ino) && Good(fs, Word(ino, DOUBLY))
  {
    hide BitMeans, Counted, GroupPlaced, FreeBit, BlockOk, AddrsApart;
    HasHolders(fs, ino, GrowthLimit(fs.geo));
    assert HolderIn(fs, ino, SecondOf(ino), Double) && Good(fs, HolderAt(fs, ino, Double));
  }
}
