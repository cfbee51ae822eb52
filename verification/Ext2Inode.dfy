/** Inodes held in memory, over the mounted file system, as in src/fs/ext2.rs. */
module Ext2Inodes {
  import opened Arith
  import opened Bits
  import opened Options
  import opened Disks
  import opened Ahci
  import opened Ext2Layout
  import opened Ext2Alloc
  import opened Ext2File
  import opened Ext2Many
  import opened Ext2Groups
  import opened Ext2Chunks
  import opened Ext2Space
  import opened Ext2Gap
  import opened Ext2Frames
  import opened Ext2Contents
  import opened Ext2Write

  lemma InodeAddress(fs: Fs, nr: nat)
    requires Ok(fs) && nr > 0 && GetBlockGroup(fs.geo, nr) < fs.geo.groups
    ensures DescBlock(fs.geo, GetBlockGroup(fs.geo, nr)) < |fs.vol|
    ensures var table := U32(Desc(fs.geo, fs.vol, GetBlockGroup(fs.geo, nr)), 8);
      fs.geo.startLba * 512 + table * fs.geo.blockSize + GetTableIndex(fs.geo, nr) * INODE_SIZE ==
        BlockStart(fs.geo, InodeBlock(fs, nr)) + RecordOffset(fs.geo, GetTableIndex(fs.geo, nr))
    ensures InodeBlock(fs, nr) < |fs.vol|
    ensures RecordOffset(fs.geo, GetTableIndex(fs.geo, nr)) + INODE_SIZE <= fs.geo.blockSize
    ensures FitsBounce(RecordOffset(fs.geo, GetTableIndex(fs.geo, nr)), INODE_SIZE)
  {
    var g, i := GetBlockGroup(fs.geo, nr), GetTableIndex(fs.geo, nr);
    assert GroupPlaced(fs.geo, fs.vol, fs.lay, g);
    InodeBlockRole(fs, nr);
    ByteInBlock(fs.geo, U32(Desc(fs.geo, fs.vol, g), 8), i * INODE_SIZE);
  }

  lemma PtrAddress(geo: Geometry, b: nat, r: nat)
    requires GeoOk(geo) && r < PerBlock(geo)
    ensures geo.startLba * 512 + b * geo.blockSize + r * 4 == BlockStart(geo, b) + 4 * r
    ensures 4 * r + 4 <= geo.blockSize && FitsBounce(4 * r, 4)
  {
  }

  /** A word of any block a 32-bit number names is one sector's. */
  lemma WordTransferable(geo: Geometry, b: u32, r: nat)
    requires GeoOk(geo) && r < PerBlock(geo) && BlockStart(geo, 0x1_0000_0000) <= BYTE_LIMIT
    ensures Transferable(BlockStart(geo, b) + 4 * r, 4)
  {
    BlockSectors(geo, b);
    BlocksApart(geo, b, 0x1_0000_0000);
    var k := geo.startLba + b * (geo.blockSize / 512);
    WordSector(k, r);
  }

  lemma WordSector(k: nat, r: nat)
    requires 512 * k + 4 * r + 4 <= BYTE_LIMIT
    ensures Transferable(k * 512 + 4 * r, 4)
  {
    var q, s := r / 128, r % 128;
    DivModUnique(k * 512 + 4 * r, 512, k + q, 4 * s);
    DivModUnique(4 + 4 * s + 511, 512, 1, 4 * s + 3);
    assert RoundUp(4, 4096) == 4096;
  }

  class InodeBox {
    const fs: Ext2Filesystem
    var raw: Inode

    /** `Inode::get`, through `BlockGroup::get_inode`. */
    constructor Get(fs: Ext2Filesystem, nr: u32)
      requires fs.Valid() && nr > 0 && GetBlockGroup(fs.geo, nr) < fs.geo.groups
      modifies fs.dev.fis, fs.dev.prdt
      ensures fs.Valid() && this.fs == fs && raw == GetInode(fs.State(), nr)
    {
      this.fs := fs;
      raw := seq(INODE_SIZE, _ => 0);
      new;
      hide FsOk, GeoOk, Holds, Sized, BlockStart;
      var group := new BlockGroup.Get(fs, GetBlockGroup(fs.geo, nr));
      InodeAddress(fs.State(), nr);
      var i := GetTableIndex(fs.geo, nr);
      var data := fs.ReadRecord(
        fs.geo.startLba * 512 + U32(group.raw, 8) * fs.geo.blockSize + i * INODE_SIZE, INODE_SIZE,
        InodeBlock(fs.State(), nr), RecordOffset(fs.geo, i));
      raw := SetWord(data, NUMBER, nr);
    }

    method Flush()
      requires fs.Valid() && InodeOk(fs.geo, raw)
      modifies fs`vol, fs.dev.disk, fs.dev.fis, fs.dev.prdt
      ensures fs.Valid() && fs.State() == PutInode(old(fs.State()), raw)
    {
      hide FsOk, GeoOk, Holds, Sized, BlockStart;
      var nr := Word(raw, NUMBER);
      var group := new BlockGroup.Get(fs, GetBlockGroup(fs.geo, nr));
      InodeAddress(fs.State(), nr);
      PutInodeOk(fs.State(), raw);
      var i := GetTableIndex(fs.geo, nr);
      fs.WriteRecord(
        fs.geo.startLba * 512 + U32(group.raw, 8) * fs.geo.blockSize + i * INODE_SIZE, raw,
        InodeBlock(fs.State(), nr), RecordOffset(fs.geo, i));
    }

    method ReadPtr(b: nat, r: nat) returns (v: u32)
      requires fs.Mounted() && b < |fs.vol| && r < PerBlock(fs.geo)
      modifies fs.dev.fis, fs.dev.prdt
      ensures fs.Mounted() && v == PtrIn(fs.vol, b, r)
    {
      PtrAddress(fs.geo, b, r);
      var data := fs.ReadRecord(fs.geo.startLba * 512 + b * fs.geo.blockSize + r * 4, 4, b, 4 * r);
      v := U32(data, 0);
    }

    method WritePtr(b: nat, r: nat, v: u32)
      requires fs.Mounted() && b < |fs.vol| && r < PerBlock(fs.geo)
      modifies fs`vol, fs.dev.disk, fs.dev.fis, fs.dev.prdt
      ensures fs.Mounted() && fs.vol == PutPtr(old(fs.vol), b, r, v)
    {
      PtrAddress(fs.geo, b, r);
      fs.WriteRecord(fs.geo.startLba * 512 + b * fs.geo.blockSize + r * 4, Le32(v), b, 4 * r);
    }

    method GetBlockAddress(index: nat) returns (a: u32)
      requires fs.Mounted() && index < MaxIndex(fs.geo) && Resolvable(fs.State(), raw, Decode(fs.geo, index))
      modifies fs.dev.fis, fs.dev.prdt
      ensures fs.Mounted() && a == GetAddr(fs.State(), raw, index)
    {
      hide Holds, Sized, BlockStart;
      DecodeEncode(fs.geo, index);
      if index < 12 {
        return Direct(raw, index);
      }
      var n, j := PerBlock(fs.geo), index - 12;
      if j < n {
        a := ReadPtr(Word(raw, SINGLY), j);
        return;
      }
      j := j - n;
      var indirect := ReadPtr(Word(raw, DOUBLY), Quot(j, n));
      a := ReadPtr(indirect, j % n);
    }

    /** `singly_ip` or `doubly_ip` from the allocator, and the inode flushed; `false` is the panic on a full volume. */
    method GivePointer(w: nat) returns (ok: bool)
      requires fs.Valid() && InodeOk(fs.geo, raw) && (w == SINGLY || w == DOUBLY)
      modifies `raw, fs`vol, fs.dev.disk, fs.dev.fis, fs.dev.prdt
      ensures ok ==> fs.Valid() && Given(old(fs.State()), old(raw), w, fs.State(), raw)
      ensures ok ==> fs.unallocatedBlocks > 0
      ensures !ok ==> fs.unallocatedBlocks == 0 || Ext2Alloc.AllocBlock(fs.geo, old(fs.vol), fs.lay) == None
    {
      hide Placed, BitMeans, Counted, Holds, Sized, PutInode;
      if Ext2Alloc.AllocBlock(fs.geo, fs.vol, fs.lay).Some? {
        AllocKeeps(fs.State());
      }
      var s := fs.AllocBlock();
      if s.None? {
        return false;
      }
      raw := SetWord(raw, w, s.value);
      FlushKeeps(fs.State(), raw);
      Flush();
      return true;
    }

    /** The doubly indirect block, the second-level block of entry `k`, and the entry that joins them. */
    method GiveDouble(k: nat) returns (ok: bool, indirect: u32)
      requires fs.Valid() && InodeOk(fs.geo, raw) && k < PerBlock(fs.geo)
      modifies `raw, fs`vol, fs.dev.disk, fs.dev.fis, fs.dev.prdt
      ensures ok ==> fs.Valid() && Ext2File.GiveDouble(old(fs.State()), old(raw), k) == Some((fs.State(), raw))
      ensures ok ==> indirect == PtrIn(fs.vol, Word(raw, DOUBLY), k)
      ensures ok ==> fs.unallocatedBlocks > 0
      ensures !ok ==> fs.unallocatedBlocks == 0 || Ext2File.GiveDouble(old(fs.State()), old(raw), k) == None
    {
      hide Placed, BitMeans, Counted, Holds, Sized, PutInode;
      indirect := 0;
      ok := GivePointer(DOUBLY);
      if !ok {
        return;
      }
      var d := Word(raw, DOUBLY);
      if Ext2Alloc.AllocBlock(fs.geo, fs.vol, fs.lay).Some? {
        AllocKeeps(fs.State());
      }
      var e := fs.AllocBlock();
      if e.None? {
        return false, 0;
      }
      indirect := e.value;
      PutPtrKeeps(fs.State(), d, k, indirect);
      PtrWritten(fs.State(), d, k, indirect);
      WritePtr(d, k, indirect);
    }

    /** A pointer in the singly indirect block, which is allocated where it is missing. */
    method SetSingly(r: nat, v: u32, ghost second: set<nat>) returns (ok: bool)
      requires fs.Valid() && InodeOk(fs.geo, raw) && HoldersOk(fs.State(), raw, second) && r < PerBlock(fs.geo)
      modifies `raw, fs`vol, fs.dev.disk, fs.dev.fis, fs.dev.prdt
      ensures ok ==> fs.Valid() && Stored(old(fs.State()), old(raw), InSingly(r), v, fs.State(), raw)
      ensures !ok ==> fs.unallocatedBlocks == 0 || Prepare(old(fs.State()), old(raw), InSingly(r)) == None
      ensures if ok then Missing(old(raw), InSingly(r)) == 0 || fs.unallocatedBlocks > 0 else Missing(old(raw), InSingly(r)) > 0
    {
      hide FsOk, Holds, Sized, PutInode, Good, HoldersOk;
      ok := true;
      if Word(raw, SINGLY) == 0 {
        ok := GivePointer(SINGLY);
        if !ok {
          return;
        }
      }
      StoreReady(old(fs.State()), old(raw), second, InSingly(r), v, fs.State(), raw);
      WritePtr(Word(raw, SINGLY), r, v);
    }

    /** A pointer in the second-level block of entry `k`. */
    method SetDoubly(k: nat, r: nat, v: u32, ghost second: set<nat>) returns (ok: bool)
      requires fs.Valid() && InodeOk(fs.geo, raw) && HoldersOk(fs.State(), raw, second)
      requires SlotOk(fs.geo, InSecond(k, r)) && Ready(raw, second, InSecond(k, r))
      modifies `raw, fs`vol, fs.dev.disk, fs.dev.fis, fs.dev.prdt
      ensures ok ==> fs.Valid() && Stored(old(fs.State()), old(raw), InSecond(k, r), v, fs.State(), raw)
      ensures !ok ==> fs.unallocatedBlocks == 0 || Prepare(old(fs.State()), old(raw), InSecond(k, r)) == None
      ensures if ok then Missing(old(raw), InSecond(k, r)) == 0 || fs.unallocatedBlocks > 0 else Missing(old(raw), InSecond(k, r)) > 0
    {
      hide FsOk, Holds, Sized, PutInode, Good, HoldersOk;
      ok := true;
      var indirect := 0;
      if Word(raw, DOUBLY) == 0 {
        ok, indirect := GiveDouble(k);
        if !ok {
          return;
        }
        StoreReady(old(fs.State()), old(raw), second, InSecond(k, r), v, fs.State(), raw);
      } else {
        StoreReady(old(fs.State()), old(raw), second, InSecond(k, r), v, fs.State(), raw);
        indirect := ReadPtr(Word(raw, DOUBLY), k);
      }
      WritePtr(indirect, r, v);
    }

    /** `set_block_address`; past the doubly indirect range it does nothing. It panics exactly when a missing pointer block cannot be had. */
    method SetBlockAddress(index: nat, v: u32, ghost second: set<nat>) returns (ok: bool)
      requires fs.Valid() && InodeOk(fs.geo, raw) && HoldersOk(fs.State(), raw, second)
      requires index < MaxIndex(fs.geo) ==> Ready(raw, second, Decode(fs.geo, index))
      modifies `raw, fs`vol, fs.dev.disk, fs.dev.fis, fs.dev.prdt
      ensures ok ==> fs.Valid() && SetAddr(old(fs.State()), old(raw), index, v) == Some((fs.State(), raw))
      ensures !ok ==> fs.unallocatedBlocks == 0 || SetAddr(old(fs.State()), old(raw), index, v) == None
      ensures index >= MaxIndex(fs.geo) ==> ok
      ensures index < MaxIndex(fs.geo) ==>
        ok == Affordable(fs.unallocatedBlocks, FreeCount(old(fs.State())), Missing(old(raw), Decode(fs.geo, index)))
    {
      hide FsOk, Holds, Sized, PutInode, Good, HoldersOk, Prepare, SetAddr, Decode, MaxIndex, Stored, Ready, FreeCount;
      SetAddrCost(fs.State(), raw, second, index, v);
      DecodeIs(fs.geo, index);
      DecodeDirect(fs.geo, index);
      SetAddrIs(fs.State(), raw, index, v);
      if index < 12 {
        raw := SetWord(raw, DIRECT + index, v);
        Flush();
        return true;
      }
      var n, j := PerBlock(fs.geo), index - 12;
      if j < n {
        ok := SetSingly(j, v, second);
        return;
      }
      j := j - n;
      if j < Square(n) {
        ok := SetDoubly(Quot(j, n), j % n, v, second);
        return;
      }
      return true;
    }

    /** One turn of the loop in `resize`. */
    method Grow(n: nat) returns (ok: bool)
      requires fs.Valid() && FileOk(fs.State(), raw, SecondOf(raw), n) && n < GrowthLimit(fs.geo)
      modifies `raw, fs`vol, fs.dev.disk, fs.dev.fis, fs.dev.prdt
      ensures ok ==> fs.Valid() && Ext2File.Grow(old(fs.State()), old(raw), n) == Some((fs.State(), raw))
      ensures ok ==> FileOk(fs.State(), raw, SecondOf(raw), n + 1) && fs.unallocatedBlocks > 0
      ensures !ok ==> fs.unallocatedBlocks == 0 || Ext2File.Grow(old(fs.State()), old(raw), n) == None
    {
      hide Placed, BitMeans, Counted, Holds, Sized, HoldersOk, BlockOk, AddrsApart, SetAddr, Fresh, Ready;
      ghost var second := SecondOf(raw);
      if Ext2Alloc.AllocBlock(fs.geo, fs.vol, fs.lay).Some? {
        GrowStart(fs.State(), raw, n);
      }
      var block := fs.AllocBlock();
      if block.None? {
        return false;
      }
      ok := SetBlockAddress(n, block.value, second);
      if ok {
        GrowOk(old(fs.State()), old(raw), n);
      }
    }

    /** The store of `set_block_address` under an existing doubly indirect block, whatever its entry holds; `false` is a panic. */
    method StoreSecond(k: nat, r: nat, v: u32) returns (ok: bool)
      requires fs.Mounted() && Word(raw, DOUBLY) < |fs.vol| && k < PerBlock(fs.geo) && r < PerBlock(fs.geo)
      requires BlockStart(fs.geo, 0x1_0000_0000) <= BYTE_LIMIT
      modifies fs`vol, fs.dev.disk, fs.dev.fis, fs.dev.prdt
      ensures fs.Mounted() && fs.vol == VolumeOn(fs.dev.disk[..], fs.geo, |old(fs.vol)|)
      ensures match StoreWord(old(fs.dev.disk[..]), BlockStart(fs.geo, PtrIn(old(fs.vol), Word(raw, DOUBLY), k)) + 4 * r, v)
              case None => !ok && fs.dev.disk[..] == old(fs.dev.disk[..])
              case Some(disk) => ok && fs.dev.disk[..] == disk
    {
      hide Holds, Sized, BlockStart, Splice, FitsBounce, WithinDisk, Le32;
      var indirect := ReadPtr(Word(raw, DOUBLY), k);
      PtrAddress(fs.geo, indirect, r);
      WordTransferable(fs.geo, indirect, r);
      var word := Le32(v);
      var buffer := new byte[4](i requires 0 <= i < 4 => word[i]);
      assert buffer[..4] == word;
      ok := fs.WriteRaw(fs.geo.startLba * 512 + indirect * fs.geo.blockSize + r * 4, 4, buffer);
    }

    /**
      One turn of the loop in `resize` under an existing doubly indirect block, whatever its
      entry holds. `false` is a panic: on a full volume, or on sectors that do not exist.
     */
    method GrowPast(n: nat) returns (ok: bool, ghost t: Turn)
      requires fs.Valid() && InodeOk(fs.geo, raw) && Word(raw, DOUBLY) != 0 && Good(fs.State(), Word(raw, DOUBLY))
      requires n < MaxIndex(fs.geo) && Decode(fs.geo, n).InSecond? && BlockStart(fs.geo, 0x1_0000_0000) <= BYTE_LIMIT
      modifies fs`vol, fs.dev.disk, fs.dev.fis, fs.dev.prdt
      ensures fs.unallocatedBlocks == 0 || Ext2Alloc.AllocBlock(fs.geo, old(fs.vol), fs.lay) == None ==> !ok && fs.vol == old(fs.vol)
      ensures fs.unallocatedBlocks > 0 && Ext2Alloc.AllocBlock(fs.geo, old(fs.vol), fs.lay).Some? ==>
        && TurnReady(t) && t.fs == old(fs.State()) && t.ino == raw && t.n == n && |t.disk| == fs.dev.disk.Length
        && fs.Mounted() && fs.vol == VolumeOn(fs.dev.disk[..], fs.geo, |old(fs.vol)|)
        && match Outcome(t)
           case None => !ok && fs.dev.disk[..] == t.disk
           case Some(disk) => ok && fs.dev.disk[..] == disk
    {
      hide BitMeans, Counted, GroupPlaced, FreeBit, Holds, Sized, BlockStart, Decode, StoreWord, Ext2Alloc.AllocBlock;
      ghost var fs0 := fs.State();
      t := Turn(fs0, raw, n, [], 0, []);
      if Ext2Alloc.AllocBlock(fs.geo, fs.vol, fs.lay).Some? {
        PastLimitStore(fs0, raw, n);
      }
      DecodeEncode(fs.geo, n);
      var block := fs.AllocBlock();
      if block.None? {
        return false, t;
      }
      t := Turn(fs0, raw, n, fs.vol, block.value, fs.dev.disk[..]);
      var slot := Decode(fs.geo, n);
      ok := StoreSecond(slot.k, slot.r, block.value);
    }

    /** The loop in `resize`. */
    method GrowLoop(n: nat, m: nat) returns (ok: bool)
      requires fs.Valid() && FileOk(fs.State(), raw, SecondOf(raw), n) && n < m <= GrowthLimit(fs.geo)
      modifies `raw, fs`vol, fs.dev.disk, fs.dev.fis, fs.dev.prdt
      ensures ok ==> fs.Valid() && GrowTo(old(fs.State()), old(raw), n, m) == Some((fs.State(), raw)) && InodeOk(fs.geo, raw)
      ensures ok ==> fs.unallocatedBlocks > 0
      ensures !ok ==> fs.unallocatedBlocks == 0 || GrowTo(old(fs.State()), old(raw), n, m) == None
    {
      hide FsOk, Holds, Sized, HoldersOk, BlockOk, AddrsApart, Ext2File.Grow, GrowthLimit, PutInode, Grown;
      for i := n to m
        invariant fs.Valid() && FileOk(fs.State(), raw, SecondOf(raw), i)
        invariant GrowTo(old(fs.State()), old(raw), n, m) == GrowTo(fs.State(), raw, i, m)
        invariant i > n ==> fs.unallocatedBlocks > 0
      {
        ok := Grow(i);
        if !ok {
          return;
        }
      }
      return true;
    }

    /** `resize`; it panics exactly when the blocks and pointer blocks of the growth cannot be had. */
    method Resize(newSize: nat) returns (ok: bool)
      requires fs.Valid() && FileOk(fs.State(), raw, SecondOf(raw), BlockCount(fs.geo, Word(raw, SIZE)))
      requires BlockCount(fs.geo, newSize) <= GrowthLimit(fs.geo)
      modifies `raw, fs`vol, fs.dev.disk, fs.dev.fis, fs.dev.prdt
      ensures ok ==> fs.Valid() && Ext2File.Resize(old(fs.State()), old(raw), newSize) == Some((fs.State(), raw))
      ensures !ok ==> fs.unallocatedBlocks == 0 || Ext2File.Resize(old(fs.State()), old(raw), newSize) == None
      ensures ok <==> Affordable(fs.unallocatedBlocks, FreeCount(old(fs.State())),
                                 Need(fs.geo, old(raw), BlockCount(fs.geo, Word(old(raw), SIZE)), BlockCount(fs.geo, newSize)))
      ensures ok ==> Rewritten(fs.geo, old(raw), newSize, raw)
      ensures ok ==> Framed(old(fs.State()), fs.State(), Word(old(raw), NUMBER), PointerWords(fs.State(), raw))
    {
      hide FsOk, FileOk, Holds, Sized, BlockCount, GrowthLimit, FreeCount, Need, Ext2File.Resize, Rewritten, Framed, PointerWords;
      ResizeWrites(fs.State(), raw, newSize);
      ok := ResizeBlocks(newSize);
    }

    /** The body of `resize`. */
    method ResizeBlocks(newSize: nat) returns (ok: bool)
      requires fs.Valid() && FileOk(fs.State(), raw, SecondOf(raw), BlockCount(fs.geo, Word(raw, SIZE)))
      requires BlockCount(fs.geo, newSize) <= GrowthLimit(fs.geo)
      modifies `raw, fs`vol, fs.dev.disk, fs.dev.fis, fs.dev.prdt
      ensures ok ==> fs.Valid() && Ext2File.Resize(old(fs.State()), old(raw), newSize) == Some((fs.State(), raw))
      ensures !ok ==> fs.unallocatedBlocks == 0 || Ext2File.Resize(old(fs.State()), old(raw), newSize) == None
      ensures ok <==> Affordable(fs.unallocatedBlocks, FreeCount(old(fs.State())),
                                 Need(fs.geo, old(raw), BlockCount(fs.geo, Word(old(raw), SIZE)), BlockCount(fs.geo, newSize)))
    {
      hide FsOk, Holds, Sized, HoldersOk, BlockOk, AddrsApart, Ext2File.Grow, BlockCount, GrowthLimit, PutInode, FreeCount, Need, Sized32, Grown;
      ResizeIff(fs.State(), raw, newSize);
      NeedPositive(fs.geo, raw, BlockCount(fs.geo, Word(raw, SIZE)), BlockCount(fs.geo, newSize));
      if newSize == Word(raw, SIZE) {
        return true;
      }
      var newCnt, oldCnt := BlockCount(fs.geo, newSize), BlockCount(fs.geo, Word(raw, SIZE));
      if newCnt == oldCnt {
        return true;
      }
      if newCnt > oldCnt {
        ok := GrowLoop(oldCnt, newCnt);
        if !ok {
          return;
        }
      }
      SizedInode(fs.geo, raw, newSize);
      raw := Sized32(fs.geo, raw, newSize);
      Flush();
      return true;
    }

    /** One turn of the loop in `read`. */
    method ReadTurn(index: nat, offset: nat, n: nat, buffer: array<byte>)
      requires fs.Mounted() && n <= buffer.Length && buffer != fs.dev.disk
      requires ReachesBlock(fs.State(), raw, fs.dev.disk.Length, index, offset, n)
      modifies fs.dev.fis, fs.dev.prdt, buffer
      ensures fs.Mounted()
      ensures var at := BlockStart(fs.geo, GetAddr(fs.State(), raw, index)) + offset;
        at + n <= fs.dev.disk.Length && buffer[..] == Splice(old(buffer[..]), 0, fs.dev.disk[..][at..at + n])
    {
      hide Holds, Sized, Reachable, Transferable, WithinDisk, GeoOk, BlockStart, GetAddr, Resolvable, Decode, MaxIndex, Splice;
      var block := GetBlockAddress(index);
      var at := ByteAddress(fs.geo, block, offset);
      ReachableEnd(fs.dev.disk.Length, at, n);
      assert fs.dev.disk[..][at..at + n] == fs.dev.disk[at..at + n];
      var _ := fs.dev.Read(at, n, buffer);
    }

    /** `Inode::read`: every turn lands at the start of `buffer`. */
    method Read(offset: nat, bytes: nat, buffer: array<byte>) returns (count: nat)
      requires fs.Mounted() && bytes <= buffer.Length && buffer != fs.dev.disk
      requires AllReadable(fs.State(), raw, fs.dev.disk.Length, offset, bytes)
      modifies fs.dev.fis, fs.dev.prdt, buffer
      ensures fs.Mounted() && count == bytes
      ensures AllInReach(Visited(fs.State(), raw, offset, bytes), fs.dev.disk.Length, offset, bytes)
      ensures buffer[..] == ReadChunks(fs.dev.disk[..], Visited(fs.State(), raw, offset, bytes), offset, bytes,
                                       old(buffer[..]), ChunkCount(fs.geo.blockSize, bytes))
    {
      hide Holds, Sized, Turned, Reachable, BlockStart, GetAddr, Resolvable, Decode, MaxIndex, ChunkCount, ChunkSize, NextCount,
        Splice, InReach, Quot, ReachesBlock, Visited;
      var size := fs.geo.blockSize;
      ghost var x, disk := Visited(fs.State(), raw, offset, bytes), fs.dev.disk[..];
      ReadableInReach(fs.State(), raw, fs.dev.disk.Length, offset, bytes);
      count := 0;
      var visited := 0;
      TurnedStart(size, bytes);
      while count < bytes
        invariant fs.Mounted() && Turned(size, bytes, visited, count) && visited <= ChunkCount(size, bytes)
        invariant fs.dev.disk[..] == disk
        invariant buffer[..] == ReadChunks(disk, x, offset, bytes, old(buffer[..]), visited)
        decreases bytes - count
      {
        TurnedStep(size, bytes, visited, count);
        TurnReach(fs.State(), raw, fs.dev.disk.Length, offset, bytes, visited);
        var n := NextCount(size, bytes, count);
        ghost var at := x.starts[Quot(offset, size) + visited] + offset;
        ReadStep(disk, x, offset, bytes, old(buffer[..]), visited, at, n);
        ReadTurn(Quot(offset, size) + visited, offset, n, buffer);
        assert buffer[..] == ReadChunks(disk, x, offset, bytes, old(buffer[..]), visited + 1);
        visited := visited + 1;
        count := count + n;
      }
      TurnedStep(size, bytes, visited, count);
    }

    /** The loop of `write`: every turn stores the start of `buffer`, at a block looked up on the disk as it then is. */
    method WriteLoop(offset: nat, bytes: nat, buffer: array<byte>) returns (count: nat)
      requires fs.Mounted() && bytes <= buffer.Length && buffer != fs.dev.disk
      requires TurnsOk(fs.dev.disk[..], fs.State(), raw, offset, buffer[..bytes])
      modifies fs`vol, fs.dev.disk, fs.dev.fis, fs.dev.prdt
      ensures fs.Mounted() && count == bytes && fs.State() == FsOn(fs.dev.disk[..], old(fs.State()))
      ensures fs.dev.disk[..] ==
        WriteTurns(old(fs.dev.disk[..]), old(fs.State()), raw, offset, buffer[..bytes], ChunkCount(fs.geo.blockSize, bytes))
    {
      hide Holds, Sized, Turned, BlockStart, GetAddr, Resolvable, Decode, MaxIndex, ChunkCount, ChunkSize, NextCount, Splice, Reachable,
        Quot, TurnOk;
      ghost var fs0, disk0, data := fs.State(), fs.dev.disk[..], buffer[..bytes];
      var size := fs.geo.blockSize;
      count := 0;
      var visited := 0;
      TurnedStart(size, bytes);
      VolumeOnIs(fs.dev.disk[..], fs.geo, fs.vol);
      while count < bytes
        invariant fs.Mounted() && Turned(size, bytes, visited, count) && visited <= ChunkCount(size, bytes)
        invariant fs.State() == FsOn(fs.dev.disk[..], fs0)
        invariant fs.dev.disk[..] == WriteTurns(disk0, fs0, raw, offset, data, visited)
        decreases bytes - count
      {
        TurnedStep(size, bytes, visited, count);
        assert TurnOk(WriteTurns(disk0, fs0, raw, offset, data, visited), fs0, raw, offset, bytes, visited);
        WriteOne(visited, offset, bytes, NextCount(size, bytes, count), buffer, fs0);
        count := count + NextCount(size, bytes, count);
        visited := visited + 1;
      }
      TurnedStep(size, bytes, visited, count);
    }

    /** One turn of the loop in `write`. */
    method WriteOne(k: nat, offset: nat, ghost bytes: nat, n: nat, buffer: array<byte>, ghost fs0: Fs)
      requires fs.Mounted() && bytes <= buffer.Length && buffer != fs.dev.disk && n == ChunkSize(fs.geo.blockSize, bytes, k)
      requires fs.State() == FsOn(fs.dev.disk[..], fs0) && TurnOk(fs.dev.disk[..], fs0, raw, offset, bytes, k)
      modifies fs`vol, fs.dev.disk, fs.dev.fis, fs.dev.prdt
      ensures fs.Mounted() && fs.State() == FsOn(fs.dev.disk[..], fs0)
      ensures fs.dev.disk[..] == WriteTurn(old(fs.dev.disk[..]), fs0, raw, offset, buffer[..bytes], k)
    {
      hide Holds, Sized, BlockStart, GetAddr, Resolvable, Decode, MaxIndex, ChunkSize, Splice, Reachable, Transferable, WithinDisk, Quot;
      ChunkFits(fs.geo.blockSize, bytes, k);
      var block := GetBlockAddress(Quot(offset, fs.geo.blockSize) + k);
      var at := ByteAddress(fs.geo, block, offset);
      ReachableEnd(fs.dev.disk.Length, at, n);
      assert buffer[..n] == buffer[..bytes][..n];
      var _ := fs.WriteRaw(at, n, buffer);
    }

    /**
      `Inode::write`; `None` is the panic on a full volume. `j` is the write with the file
      and the disk once the file is resized. What the loop then does is `Final`, whatever it hits; where every chunk
      stays inside its block, that is the file's blocks overlaid one by one.
     */
    method Write(offset: nat, bytes: nat, buffer: array<byte>) returns (r: Option<nat>, ghost j: Job)
      requires fs.Valid() && FileOk(fs.State(), raw, SecondOf(raw), BlockCount(fs.geo, Word(raw, SIZE)))
      requires BlockCount(fs.geo, offset + bytes) <= GrowthLimit(fs.geo)
      requires bytes <= buffer.Length && buffer != fs.dev.disk
      requires WriteReach(fs.State(), raw, fs.dev.disk.Length, offset, buffer[..bytes])
      modifies `raw, fs`vol, fs.dev.disk, fs.dev.fis, fs.dev.prdt
      ensures r.Some? <==> Affordable(fs.unallocatedBlocks, FreeCount(old(fs.State())),
                                      Need(fs.geo, old(raw), BlockCount(fs.geo, Word(old(raw), SIZE)), BlockCount(fs.geo, offset + bytes)))
      ensures r.Some? ==> r.value == bytes && fs.Mounted() && |j.disk| == fs.dev.disk.Length
      ensures r.Some? ==>
        IsJob(j, old(fs.State()), old(raw), offset, |buffer[..bytes]|) && Written(j, buffer[..bytes], fs.State(), raw, fs.dev.disk[..])
    {
      hide FsOk, FileOk, Holds, Sized, BlockCount, GrowthLimit, Ext2File.Resize, WriteTurns, TurnsOk, FreeCount, Need, FsOn;
      ResizeIff(fs.State(), raw, offset + bytes);
      j := Job(fs.State(), raw, offset, bytes, fs.State(), raw, []);
      var ok := Resize(offset + bytes);
      if !ok {
        return None, j;
      }
      j := Job(old(fs.State()), old(raw), offset, bytes, fs.State(), raw, fs.dev.disk[..]);
      var count := WriteLoop(offset, bytes, buffer);
      return Some(count), j;
    }
  }

  /** A client that writes inside a file's first block, and its bounce buffer, and reads the range back. */
  method WriteThenRead(box: InodeBox, offset: nat, bytes: nat, data: array<byte>, back: array<byte>) returns (r: Option<nat>)
    requires box.fs.Valid() && FileOk(box.fs.State(), box.raw, SecondOf(box.raw), BlockCount(box.fs.geo, Word(box.raw, SIZE)))
    requires offset + bytes <= box.fs.geo.blockSize && (bytes > 0 ==> FitsBounce(offset, bytes))
    requires bytes <= data.Length && bytes <= back.Length && data != box.fs.dev.disk && back != box.fs.dev.disk && data != back
    modifies box`raw, box.fs`vol, box.fs.dev.disk, box.fs.dev.fis, box.fs.dev.prdt, back
    ensures r.Some? <==> Affordable(box.fs.unallocatedBlocks, FreeCount(old(box.fs.State())),
                                    Need(box.fs.geo, old(box.raw), BlockCount(box.fs.geo, Word(old(box.raw), SIZE)), BlockCount(box.fs.geo, offset + bytes)))
    ensures r.Some? ==> r.value == bytes && box.fs.Valid() && back[..bytes] == data[..bytes]
  {
    hide FsOk, FileOk, Holds, Sized, BlockCount, GrowthLimit, FreeCount, Need, FsOn, Written, FitsOneBlock, WriteReach, AllReadable, Visited,
      ReadChunks, AllInReach, ChunkCount,
      OneBlock, TurnsOk, JobOk, BlockStart;
    ghost var fs0, ino0 := box.fs.State(), box.raw;
    FirstBlockWrite(fs0, ino0, box.fs.dev.disk.Length, offset, data[..bytes]);
    var w, j := box.Write(offset, bytes, data);
    if w.None? {
      return None;
    }
    FitsReadBack(fs0, ino0, j, data[..bytes], box.fs.State(), box.raw, box.fs.dev.disk[..]);
    var count := box.Read(offset, bytes, back);
    return Some(count);
  }

  /** What the allocation at the start of a turn leaves for the store. */
  lemma GrowStart(fs: Fs, ino: Inode, n: nat)
    requires FileOk(fs, ino, SecondOf(ino), n) && n < GrowthLimit(fs.geo) && Ext2Alloc.AllocBlock(fs.geo, fs.vol, fs.lay).Some?
    ensures var (vol1, nr) := Ext2Alloc.AllocBlock(fs.geo, fs.vol, fs.lay).value;
      && 0 < nr < 0x1_0000_0000 && Ok(fs.(vol := vol1)) && HoldersOk(fs.(vol := vol1), ino, SecondOf(ino))
      && n < MaxIndex(fs.geo) && Ready(ino, SecondOf(ino), Decode(fs.geo, n))
  {
    AllocCarries(fs, ino, SecondOf(ino), n, 0);
    GrowReady(fs, ino, n);
  }

  lemma SizedInode(geo: Geometry, ino: Inode, newSize: nat)
    requires geo.blockSize > 0 && InodeOk(geo, ino)
    ensures InodeOk(geo, Sized32(geo, ino, newSize))
  {
  }

  function Square(n: nat): nat {
    n * n
  }

  lemma DecodeIs(geo: Geometry, index: nat)
    requires GeoOk(geo)
    ensures PerBlock(geo) > 0 && (index < 12 ==> index < MaxIndex(geo))
    ensures var n := PerBlock(geo);
      index >= 12 ==>
        if index - 12 < n then index < MaxIndex(geo) && Decode(geo, index) == InSingly(index - 12)
        else
          var j := index - 12 - n;
          if j < Square(n) then
            && index < MaxIndex(geo) && Decode(geo, index) == InSecond(Quot(j, n), j % n)
            && SlotOk(geo, Decode(geo, index))
          else index >= MaxIndex(geo)
  {
    if index < MaxIndex(geo) {
      DecodeEncode(geo, index);
    }
  }

  lemma DecodeDirect(geo: Geometry, index: nat)
    requires GeoOk(geo)
    ensures index < 12 ==> Decode(geo, index) == InInode(index)
  {
  }

  lemma SetAddrIs(fs: Fs, ino: Inode, index: nat, v: u32)
    requires Ok(fs) && InodeOk(fs.geo, ino)
    ensures index >= MaxIndex(fs.geo) ==> SetAddr(fs, ino, index, v) == Some((fs, ino))
    ensures index < 12 ==>
      var ino' := SetWord(ino, DIRECT + index, v);
      InodeOk(fs.geo, ino') && SetAddr(fs, ino, index, v) == Some((PutInode(fs, ino'), ino'))
    ensures 12 <= index < MaxIndex(fs.geo) ==>
      && SlotOk(fs.geo, Decode(fs.geo, index))
      && (Prepare(fs, ino, Decode(fs.geo, index)) == None ==> SetAddr(fs, ino, index, v) == None)
      && forall fs', ino' :: Stored(fs, ino, Decode(fs.geo, index), v, fs', ino') ==> SetAddr(fs, ino, index, v) == Some((fs', ino'))
  {
    hide BitMeans, Counted, GroupPlaced, PutInode, MaxIndex, Prepare;
    DecodeIs(fs.geo, index);
    PrepareDirect(fs, ino, index);
    if index < MaxIndex(fs.geo) {
      DecodeEncode(fs.geo, index);
    }
  }

  lemma PrepareDirect(fs: Fs, ino: Inode, w: nat)
    requires Ok(fs) && InodeOk(fs.geo, ino)
    ensures Prepare(fs, ino, InInode(w)) == Some((fs, ino))
  {
  }

  lemma PtrWritten(fs: Fs, d: nat, k: nat, e: u32)
    requires Ok(fs) && Good(fs, d) && k < PerBlock(fs.geo)
    ensures PtrIn(PutPtr(fs.vol, d, k, e), d, k) == e
  {
    PtrOfPut(fs.geo, fs.vol, d, k, e, d, k);
  }

  /** The way to `slot` has been prepared and `v` stored there. */
  ghost predicate Stored(fs: Fs, ino: Inode, slot: Slot, v: u32, fs': Fs, ino': Inode)
    requires Ok(fs) && InodeOk(fs.geo, ino) && SlotOk(fs.geo, slot)
  {
    && Prepare(fs, ino, slot).Some?
    && var (fs1, ino1) := Prepare(fs, ino, slot).value;
       PutSlot(fs1, ino1, slot, v) == (fs', ino')
  }

  /** Once the way is prepared its last block is one of the volume, and the store keeps the file system well formed. */
  lemma StoreReady(fs: Fs, ino: Inode, second: set<nat>, slot: Slot, v: u32, fs1: Fs, ino1: Inode)
    requires Ok(fs) && InodeOk(fs.geo, ino) && HoldersOk(fs, ino, second)
    requires SlotOk(fs.geo, slot) && Ready(ino, second, slot) && Prepare(fs, ino, slot) == Some((fs1, ino1))
    ensures Resolvable(fs1, ino1, slot) && fs1.geo == fs.geo && Ok(PutSlot(fs1, ino1, slot, v).0)
  {
    var second' := Prepared(ino, second, slot);
    PrepareOk(fs, ino, second, 0, slot, 0);
    PutSlotKeeps(fs1, ino1, second', slot, v);
    match slot
    case InInode(_) =>
    case InSingly(_) => assert Good(fs1, HolderAt(fs1, ino1, Single));
    case InSecond(k, _) =>
      assert HolderIn(fs1, ino1, second', Double) && Good(fs1, HolderAt(fs1, ino1, Double));
      assert Good(fs1, HolderAt(fs1, ino1, Second(k)));
  }

  /** One allocation has gone into word `w` of the inode, which has been flushed. */
  ghost predicate Given(fs: Fs, ino: Inode, w: nat, fs': Fs, ino': Inode)
    requires Ok(fs) && w < 32
  {
    && Ext2Alloc.AllocBlock(fs.geo, fs.vol, fs.lay).Some?
    && var (vol1, s) := Ext2Alloc.AllocBlock(fs.geo, fs.vol, fs.lay).value;
       && s < 0x1_0000_0000 && ino' == SetWord(ino, w, s) && Ok(fs.(vol := vol1)) && InodeOk(fs.geo, ino')
       && fs' == PutInode(fs.(vol := vol1), ino') && Ok(fs') && Good(fs', s)
  }
}
