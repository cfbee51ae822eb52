/** Inodes, their block-pointer trees and growth, as in src/fs/ext2.rs. */
module Ext2File {
  import opened Arith
  import opened Bits
  import opened Options
  import opened Disks
  import opened Ext2Layout
  import opened Ext2Alloc

  /** A mounted volume. */
  datatype Fs = Fs(geo: Geometry, lay: Layout, vol: Volume)

  ghost predicate Ok(fs: Fs) {
    FsOk(fs.geo, fs.vol, fs.lay)
  }

  // -------- the inode record: 128 bytes, read as 32-bit words --------

  const SIZE: nat := 1
  const SECTORS_USED: nat := 7
  const NUMBER: nat := 9
  const DIRECT: nat := 10
  const SINGLY: nat := 22
  const DOUBLY: nat := 23

  type Inode = s: seq<byte> | |s| == INODE_SIZE witness seq(INODE_SIZE, _ => 0)

  function Word(ino: Inode, w: nat): u32
    requires w < 32
  {
    U32(ino, 4 * w)
  }

  function SetWord(ino: Inode, w: nat, v: u32): (r: Inode)
    requires w < 32
    ensures forall x :: 0 <= x < 32 ==> Word(r, x) == if x == w then v else Word(ino, x)
  {
    var r := Splice(ino, 4 * w, Le32(v));
    assert forall x :: 0 <= x < 32 ==> U32(r, 4 * x) == if x == w then v else U32(ino, 4 * x) by {
      forall x | 0 <= x < 32 ensures U32(r, 4 * x) == if x == w then v else U32(ino, 4 * x) {
        PointerOverlay(ino, w, x, v);
      }
    }
    r
  }

  ghost predicate InodeOk(geo: Geometry, ino: Inode) {
    geo.inodesPerGroup > 0 && Word(ino, NUMBER) > 0 && GetBlockGroup(geo, Word(ino, NUMBER)) < geo.groups
  }

  /** Block of the inode table, and offset in it, that hold the inode. */
  function InodeBlock(fs: Fs, nr: nat): nat
    requires Ok(fs) && nr > 0 && GetBlockGroup(fs.geo, nr) < fs.geo.groups
  {
    assert GroupPlaced(fs.geo, fs.vol, fs.lay, GetBlockGroup(fs.geo, nr));
    U32(Desc(fs.geo, fs.vol, GetBlockGroup(fs.geo, nr)), 8) + RecordBlock(fs.geo, GetTableIndex(fs.geo, nr))
  }

  function RecordBlock(geo: Geometry, i: nat): nat
    requires geo.blockSize > 0
  {
    i * INODE_SIZE / geo.blockSize
  }

  function RecordOffset(geo: Geometry, i: nat): nat
    requires geo.blockSize > 0
  {
    i * INODE_SIZE % geo.blockSize
  }

  lemma RecordInTable(geo: Geometry, i: nat)
    requires GeoOk(geo) && i < geo.inodesPerGroup
    ensures RecordOffset(geo, i) + INODE_SIZE <= geo.blockSize
    ensures RecordBlock(geo, i) < TableBlocks(geo)
  {
    WholeRecords(geo.blockSize);
    NoStraddle(geo.blockSize, INODE_SIZE, i);
    QuotBelow(i * INODE_SIZE, geo.inodesPerGroup * INODE_SIZE, geo.blockSize);
  }

  lemma InodeBlockRole(fs: Fs, nr: nat)
    requires Ok(fs) && nr > 0 && GetBlockGroup(fs.geo, nr) < fs.geo.groups
    ensures InodeBlock(fs, nr) < |fs.vol| && fs.lay.roles[InodeBlock(fs, nr)] == InodeTable(GetBlockGroup(fs.geo, nr))
    ensures RecordOffset(fs.geo, GetTableIndex(fs.geo, nr)) + INODE_SIZE <= fs.geo.blockSize
  {
    var g, i := GetBlockGroup(fs.geo, nr), GetTableIndex(fs.geo, nr);
    assert GroupPlaced(fs.geo, fs.vol, fs.lay, g);
    RecordInTable(fs.geo, i);
    TableRole(fs.geo, fs.lay, g, RecordBlock(fs.geo, i));
  }

  lemma TableRole(geo: Geometry, lay: Layout, g: nat, j: nat)
    requires geo.blockSize > 0 && g < |lay.inodeTables| && TablePlaced(geo, lay, g) && j < TableBlocks(geo)
    ensures lay.inodeTables[g] + j < |lay.roles| && lay.roles[lay.inodeTables[g] + j] == InodeTable(g)
  {
  }

  /** `Inode::flush`. */
  function PutInode(fs: Fs, ino: Inode): (r: Fs)
    requires Ok(fs) && InodeOk(fs.geo, ino)
  {
    var nr := Word(ino, NUMBER);
    InodeBlockRole(fs, nr);
    var b := InodeBlock(fs, nr);
    fs.(vol := fs.vol[b := Splice(fs.vol[b], RecordOffset(fs.geo, GetTableIndex(fs.geo, nr)), ino)])
  }

  /** `Inode::get`. */
  function GetInode(fs: Fs, nr: nat): Inode
    requires Ok(fs) && 0 < nr < 0x1_0000_0000 && GetBlockGroup(fs.geo, nr) < fs.geo.groups
  {
    InodeBlockRole(fs, nr);
    var off := RecordOffset(fs.geo, GetTableIndex(fs.geo, nr));
    SetWord(fs.vol[InodeBlock(fs, nr)][off..off + INODE_SIZE], NUMBER, nr)
  }

  lemma PutInodeOk(fs: Fs, ino: Inode)
    requires Ok(fs) && InodeOk(fs.geo, ino)
    ensures Ok(PutInode(fs, ino))
    ensures forall b: nat :: IsFree(fs.geo, PutInode(fs, ino).vol, fs.lay, b) <==> IsFree(fs.geo, fs.vol, fs.lay, b)
    ensures forall b :: 0 <= b < |fs.vol| && !fs.lay.roles[b].InodeTable? ==> PutInode(fs, ino).vol[b] == fs.vol[b]
  {
    InodeBlockRole(fs, Word(ino, NUMBER));
    PlainWriteOk(fs.geo, fs.vol, fs.lay, PutInode(fs, ino).vol);
  }

  /** What `flush` stores, `get` reads back. */
  lemma InodeRoundTrip(fs: Fs, ino: Inode)
    requires Ok(fs) && InodeOk(fs.geo, ino)
    ensures Ok(PutInode(fs, ino))
    ensures GetInode(PutInode(fs, ino), Word(ino, NUMBER)) == ino
  {
    PutInodeOk(fs, ino);
    var nr, fs' := Word(ino, NUMBER), PutInode(fs, ino);
    var g, off := GetBlockGroup(fs.geo, nr), RecordOffset(fs.geo, GetTableIndex(fs.geo, nr));
    InodeBlockRole(fs, nr);
    PlainPlaced(fs.geo, fs.vol, fs.lay, fs'.vol, g);
    assert InodeBlock(fs', nr) == InodeBlock(fs, nr);
    assert fs'.vol[InodeBlock(fs, nr)][off..off + INODE_SIZE] == ino;
    SameWord(ino, NUMBER);
  }

  lemma SameWord(ino: Inode, w: nat)
    requires w < 32
    ensures SetWord(ino, w, Word(ino, w)) == ino
  {
    var a, b, c, d := ino[4 * w], ino[4 * w + 1], ino[4 * w + 2], ino[4 * w + 3];
    BytesOfWord(a, b, c, d);
    assert ino[4 * w..4 * w + 4] == [a, b, c, d];
  }

  lemma BytesOfWord(a: byte, b: byte, c: byte, d: byte)
    ensures var v: u32 := a as int + 0x100 * b as int + 0x1_0000 * c as int + 0x100_0000 * d as int; Le32(v) == [a, b, c, d]
  {
    var v: u32 := a as int + 0x100 * b as int + 0x1_0000 * c as int + 0x100_0000 * d as int;
    var y, z := b as int + 0x100 * c as int + 0x1_0000 * d as int, c as int + 0x100 * d as int;
    DivModUnique(v, 0x100, y, a);
    DivModUnique(y, 0x100, z, b);
    DivModUnique(v, 0x1_0000, z, a as int + 0x100 * b as int);
    DivModUnique(v, 0x100_0000, d, a as int + 0x100 * b as int + 0x1_0000 * c as int);
    DivModUnique(z, 0x100, d, c);
  }

  predicate IsNumber(geo: Geometry, nr: nat) {
    geo.inodesPerGroup > 0 && 0 < nr < 0x1_0000_0000 && GetBlockGroup(geo, nr) < geo.groups
  }

  /** Records in one block of one table do not overlap. */
  lemma RecordsApart(geo: Geometry, i: nat, j: nat)
    requires GeoOk(geo) && i != j && RecordBlock(geo, i) == RecordBlock(geo, j)
    ensures RecordOffset(geo, i) + INODE_SIZE <= RecordOffset(geo, j) || RecordOffset(geo, j) + INODE_SIZE <= RecordOffset(geo, i)
  {
    var q := i * INODE_SIZE / geo.blockSize;
    assert i * INODE_SIZE == geo.blockSize * q + RecordOffset(geo, i);
    assert j * INODE_SIZE == geo.blockSize * q + RecordOffset(geo, j);
  }

  /** Two numbers with the same group and the same table index are the same. */
  lemma HomeInjective(geo: Geometry, nr: nat, other: nat)
    requires GeoOk(geo) && nr > 0 && other > 0
    requires GetBlockGroup(geo, nr) == GetBlockGroup(geo, other) && GetTableIndex(geo, nr) == GetTableIndex(geo, other)
    ensures nr == other
  {
    var n := geo.inodesPerGroup;
    assert nr - 1 == n * ((nr - 1) / n) + (nr - 1) % n;
    assert other - 1 == n * ((other - 1) / n) + (other - 1) % n;
  }

  /** Where a record lies is fixed by the layout, so only a change to an inode table can change it. */
  lemma RecordFrame(fs: Fs, fs': Fs, nr: nat)
    requires Ok(fs) && Ok(fs') && fs'.geo == fs.geo && fs'.lay == fs.lay && |fs'.vol| == |fs.vol| && IsNumber(fs.geo, nr)
    ensures InodeBlock(fs', nr) == InodeBlock(fs, nr) < |fs.vol|
    ensures fs'.vol[InodeBlock(fs, nr)] == fs.vol[InodeBlock(fs, nr)] ==> GetInode(fs', nr) == GetInode(fs, nr)
  {
    hide BitMeans, Counted;
    var g := GetBlockGroup(fs.geo, nr);
    assert GroupPlaced(fs.geo, fs.vol, fs.lay, g) && GroupPlaced(fs.geo, fs'.vol, fs.lay, g);
    InodeBlockRole(fs, nr);
  }

  /** `flush` changes the record of its own inode and no other. */
  lemma OtherRecord(fs: Fs, ino: Inode, nr: nat)
    requires Ok(fs) && InodeOk(fs.geo, ino) && IsNumber(fs.geo, nr) && nr != Word(ino, NUMBER)
    ensures Ok(PutInode(fs, ino)) && GetInode(PutInode(fs, ino), nr) == GetInode(fs, nr)
  {
    hide BitMeans, Counted, GroupPlaced;
    var own, fs' := Word(ino, NUMBER), PutInode(fs, ino);
    PutInodeOk(fs, ino);
    RecordFrame(fs, fs', nr);
    InodeBlockRole(fs, nr);
    InodeBlockRole(fs, own);
    var i, k := GetTableIndex(fs.geo, nr), GetTableIndex(fs.geo, own);
    if InodeBlock(fs, nr) == InodeBlock(fs, own) {
      SameTableBlock(fs, nr, own);
      if i == k {
        HomeInjective(fs.geo, nr, own);
        assert false;
      }
      RecordsApart(fs.geo, i, k);
      SliceAfter(fs.vol[InodeBlock(fs, nr)], RecordOffset(fs.geo, k), ino, RecordOffset(fs.geo, i), INODE_SIZE);
    }
  }

  lemma SameTableBlock(fs: Fs, nr: nat, own: nat)
    requires Ok(fs) && IsNumber(fs.geo, nr) && IsNumber(fs.geo, own) && InodeBlock(fs, nr) == InodeBlock(fs, own)
    ensures GetBlockGroup(fs.geo, nr) == GetBlockGroup(fs.geo, own)
    ensures RecordBlock(fs.geo, GetTableIndex(fs.geo, nr)) == RecordBlock(fs.geo, GetTableIndex(fs.geo, own))
  {
    hide BitMeans, Counted, GroupPlaced;
    InodeBlockRole(fs, nr);
    InodeBlockRole(fs, own);
  }

  lemma SliceAfter(s: seq<byte>, at: nat, data: seq<byte>, o: nat, n: nat)
    requires at + |data| <= |s| && o + n <= |s| && (o + n <= at || at + |data| <= o)
    ensures Splice(s, at, data)[o..o + n] == s[o..o + n]
  {
  }

  /** The record on the disk is the inode. */
  ghost predicate OnDisk(fs: Fs, ino: Inode) {
    Ok(fs) && InodeOk(fs.geo, ino) && GetInode(fs, Word(ino, NUMBER)) == ino
  }

  ghost predicate SameRecord(fs: Fs, fs': Fs, nr: nat) {
    Ok(fs) && Ok(fs') && IsNumber(fs.geo, nr) && fs'.geo == fs.geo && GetInode(fs', nr) == GetInode(fs, nr)
  }

  ghost predicate SameInodeMaps(fs: Fs, fs': Fs) {
    && fs'.lay == fs.lay && |fs'.vol| == |fs.vol|
    && forall b :: 0 <= b < |fs.vol| && InodeMap(fs.lay, b) ==> fs'.vol[b] == fs.vol[b]
  }

  /** An inode keeps its number, its record stays in step with it, and no other record and no inode bitmap changes. */
  ghost predicate Recorded(fs: Fs, ino: Inode, fs': Fs, ino': Inode) {
    && Ok(fs) && Ok(fs') && fs'.geo == fs.geo && InodeOk(fs.geo, ino) && Word(ino', NUMBER) == Word(ino, NUMBER)
    && SameInodeMaps(fs, fs')
    && (forall nr :: IsNumber(fs.geo, nr) && nr != Word(ino, NUMBER) ==> SameRecord(fs, fs', nr))
    && (OnDisk(fs, ino) ==> OnDisk(fs', ino'))
  }

  lemma RecordedTransitive(fs: Fs, ino: Inode, fs1: Fs, ino1: Inode, fs2: Fs, ino2: Inode)
    requires Recorded(fs, ino, fs1, ino1) && Recorded(fs1, ino1, fs2, ino2)
    ensures Recorded(fs, ino, fs2, ino2)
  {
    hide FsOk, GetInode, OnDisk;
    forall nr | IsNumber(fs.geo, nr) && nr != Word(ino, NUMBER) ensures SameRecord(fs, fs2, nr) {
      assert SameRecord(fs, fs1, nr) && SameRecord(fs1, fs2, nr);
    }
  }

  /** A change that leaves the inode tables and bitmaps alone. */
  lemma TablesKept(fs: Fs, fs': Fs, ino: Inode)
    requires Ok(fs) && Ok(fs') && fs'.geo == fs.geo && SameInodeMaps(fs, fs') && InodeOk(fs.geo, ino)
    requires forall b :: 0 <= b < |fs.vol| && fs.lay.roles[b].InodeTable? ==> fs'.vol[b] == fs.vol[b]
    ensures Recorded(fs, ino, fs', ino)
  {
    hide BitMeans, Counted, GroupPlaced, GetInode;
    forall nr | IsNumber(fs.geo, nr) ensures SameRecord(fs, fs', nr) {
      RecordFrame(fs, fs', nr);
      InodeBlockRole(fs, nr);
    }
    assert SameRecord(fs, fs', Word(ino, NUMBER));
  }

  lemma FlushRecords(fs: Fs, ino: Inode, ino': Inode)
    requires Ok(fs) && InodeOk(fs.geo, ino) && Word(ino', NUMBER) == Word(ino, NUMBER)
    ensures Recorded(fs, ino, PutInode(fs, ino'), ino') && OnDisk(PutInode(fs, ino'), ino')
  {
    hide FsOk, GetInode, PutInode;
    InodeRoundTrip(fs, ino');
    PutInodeGeo(fs, ino');
    PutInodeMaps(fs, ino');
    forall nr | IsNumber(fs.geo, nr) && nr != Word(ino, NUMBER) ensures SameRecord(fs, PutInode(fs, ino'), nr) {
      OtherRecord(fs, ino', nr);
    }
  }

  lemma PutInodeMaps(fs: Fs, ino: Inode)
    requires Ok(fs) && InodeOk(fs.geo, ino)
    ensures SameInodeMaps(fs, PutInode(fs, ino))
  {
    hide BitMeans, Counted, GroupPlaced, PutInode;
    PutInodeGeo(fs, ino);
    PutInodeOk(fs, ino);
  }

  lemma PutInodeGeo(fs: Fs, ino: Inode)
    requires Ok(fs) && InodeOk(fs.geo, ino)
    ensures PutInode(fs, ino).geo == fs.geo && PutInode(fs, ino).lay == fs.lay && |PutInode(fs, ino).vol| == |fs.vol|
  {
    hide BitMeans, Counted, GroupPlaced, Splice;
    InodeBlockRole(fs, Word(ino, NUMBER));
  }

  // -------- block indices and the slots that hold their addresses --------

  /** Where the address of a file block is stored. */
  datatype Slot = InInode(w: nat) | InSingly(r: nat) | InSecond(k: nat, r: nat)

  function PerBlock(geo: Geometry): nat {
    geo.blockSize / 4
  }

  predicate SlotOk(geo: Geometry, slot: Slot) {
    match slot
    case InInode(w) => w < 12
    case InSingly(r) => r < PerBlock(geo)
    case InSecond(k, r) => k < PerBlock(geo) && r < PerBlock(geo)
  }

  /** Indices below the triply indirect range. */
  function MaxIndex(geo: Geometry): nat {
    12 + PerBlock(geo) + PerBlock(geo) * PerBlock(geo)
  }

  function Decode(geo: Geometry, index: nat): (slot: Slot)
    requires GeoOk(geo) && index < MaxIndex(geo)
  {
    var n := PerBlock(geo);
    if index < 12 then InInode(index)
    else if index - 12 < n then InSingly(index - 12)
    else
      assert n > 0;
      var j := index - 12 - n;
      InSecond(Quot(j, n), j % n)
  }

  function Encode(geo: Geometry, slot: Slot): nat {
    match slot
    case InInode(w) => w
    case InSingly(r) => 12 + r
    case InSecond(k, r) => 12 + PerBlock(geo) + k * PerBlock(geo) + r
  }

  /** Every index has its own slot. */
  lemma DecodeEncode(geo: Geometry, index: nat)
    requires GeoOk(geo) && index < MaxIndex(geo)
    ensures SlotOk(geo, Decode(geo, index)) && Encode(geo, Decode(geo, index)) == index
  {
    var n := PerBlock(geo);
    if index >= 12 + n {
      var j := index - 12 - n;
      assert j == n * (j / n) + j % n;
      if j / n >= n {
        MulMono(n, n, j / n);
        assert false;
      }
    }
  }

  function PtrIn(vol: Volume, b: nat, r: nat): u32 {
    if b < |vol| && 4 * r + 4 <= |vol[b]| then U32(vol[b], 4 * r) else 0
  }

  function PutPtr(vol: Volume, b: nat, r: nat, v: u32): Volume {
    if b < |vol| && 4 * r + 4 <= |vol[b]| then vol[b := Splice(vol[b], 4 * r, Le32(v))] else vol
  }

  lemma PtrOfPut(geo: Geometry, vol: Volume, b: nat, r: nat, v: u32, c: nat, q: nat)
    requires Sized(geo, vol) && b < |vol| && r < PerBlock(geo) && q < PerBlock(geo)
    ensures PtrIn(PutPtr(vol, b, r, v), c, q) == if c == b && q == r then v else PtrIn(vol, c, q)
  {
    if c == b {
      PointerOverlay(vol[b], r, q, v);
    }
  }

  function Direct(ino: Inode, w: nat): u32
    requires w < 12
  {
    Word(ino, DIRECT + w)
  }

  function Lookup(fs: Fs, ino: Inode, slot: Slot): u32
    requires SlotOk(fs.geo, slot)
  {
    match slot
    case InInode(w) => Direct(ino, w)
    case InSingly(r) => PtrIn(fs.vol, Word(ino, SINGLY), r)
    case InSecond(k, r) => PtrIn(fs.vol, PtrIn(fs.vol, Word(ino, DOUBLY), k), r)
  }

  /** `get_block_address` below the triply indirect range. */
  function GetAddr(fs: Fs, ino: Inode, index: nat): u32
    requires GeoOk(fs.geo) && index < MaxIndex(fs.geo)
  {
    DecodeEncode(fs.geo, index);
    Lookup(fs, ino, Decode(fs.geo, index))
  }

  // -------- the blocks that hold pointers --------

  /** The singly indirect block, the doubly indirect block, and the second-level blocks under it. */
  datatype Holder = Single | Double | Second(k: nat)

  /** `second` lists the entries of the doubly indirect block in use. */
  predicate HolderIn(fs: Fs, ino: Inode, second: set<nat>, h: Holder) {
    match h
    case Single => Word(ino, SINGLY) != 0
    case Double => Word(ino, DOUBLY) != 0
    case Second(k) => Word(ino, DOUBLY) != 0 && k in second && k < PerBlock(fs.geo)
  }

  function HolderAt(fs: Fs, ino: Inode, h: Holder): nat {
    match h
    case Single => Word(ino, SINGLY)
    case Double => Word(ino, DOUBLY)
    case Second(k) => PtrIn(fs.vol, Word(ino, DOUBLY), k)
  }

  /** A data block of the volume that is marked used. */
  predicate Good(fs: Fs, b: nat)
    requires Placed(fs.geo, fs.vol, fs.lay)
  {
    b < |fs.vol| && fs.lay.roles[b] == Data && !IsFree(fs.geo, fs.vol, fs.lay, b)
  }

  ghost predicate HoldersApart(fs: Fs, ino: Inode, second: set<nat>, h: Holder, h': Holder) {
    HolderIn(fs, ino, second, h) && HolderIn(fs, ino, second, h') && HolderAt(fs, ino, h) == HolderAt(fs, ino, h') ==> h == h'
  }

  /** The pointer blocks are used data blocks, all different. */
  ghost predicate HoldersOk(fs: Fs, ino: Inode, second: set<nat>)
    requires Placed(fs.geo, fs.vol, fs.lay)
  {
    && (forall h :: HolderIn(fs, ino, second, h) ==> Good(fs, HolderAt(fs, ino, h)))
    && (forall h, h' :: HoldersApart(fs, ino, second, h, h'))
  }

  predicate SlotIn(fs: Fs, ino: Inode, second: set<nat>, slot: Slot) {
    && SlotOk(fs.geo, slot)
    && match slot
       case InInode(_) => true
       case InSingly(_) => HolderIn(fs, ino, second, Single)
       case InSecond(k, _) => HolderIn(fs, ino, second, Second(k))
  }

  /** Storing an address in a slot whose holder exists; the inode itself is not yet flushed. */
  function PutSlot(fs: Fs, ino: Inode, slot: Slot, v: u32): (r: (Fs, Inode))
    requires SlotOk(fs.geo, slot)
  {
    match slot
    case InInode(w) => (fs, SetWord(ino, DIRECT + w, v))
    case InSingly(r) => (fs.(vol := PutPtr(fs.vol, Word(ino, SINGLY), r, v)), ino)
    case InSecond(k, r) => (fs.(vol := PutPtr(fs.vol, HolderAt(fs, ino, Second(k)), r, v)), ino)
  }

  /** A store moves no holder. */
  lemma PutSlotHolder(fs: Fs, ino: Inode, second: set<nat>, slot: Slot, v: u32, h: Holder)
    requires Ok(fs) && HoldersOk(fs, ino, second) && SlotIn(fs, ino, second, slot) && HolderIn(fs, ino, second, h)
    ensures var (fs', ino') := PutSlot(fs, ino, slot, v);
      HolderIn(fs', ino', second, h) && HolderAt(fs', ino', h) == HolderAt(fs, ino, h)
  {
    if h.Second? {
      match slot
      case InInode(w) =>
      case InSingly(r) =>
        assert HoldersApart(fs, ino, second, Double, Single);
        PtrOfPut(fs.geo, fs.vol, Word(ino, SINGLY), r, v, Word(ino, DOUBLY), h.k);
      case InSecond(k, r) =>
        assert HoldersApart(fs, ino, second, Double, Second(k)) && Good(fs, HolderAt(fs, ino, Second(k)));
        PtrOfPut(fs.geo, fs.vol, HolderAt(fs, ino, Second(k)), r, v, Word(ino, DOUBLY), h.k);
    }
  }

  /** A store changes what its own slot holds and nothing else. */
  lemma PutSlotLookup(fs: Fs, ino: Inode, second: set<nat>, slot: Slot, v: u32, q: Slot)
    requires Ok(fs) && HoldersOk(fs, ino, second) && SlotIn(fs, ino, second, slot) && SlotIn(fs, ino, second, q)
    ensures var (fs', ino') := PutSlot(fs, ino, slot, v);
      Lookup(fs', ino', q) == if q == slot then v else Lookup(fs, ino, q)
  {
    var (fs', ino') := PutSlot(fs, ino, slot, v);
    if !q.InInode? && !slot.InInode? {
      var h := if slot.InSingly? then Single else Second(slot.k);
      var h' := if q.InSingly? then Single else Second(q.k);
      PutSlotHolder(fs, ino, second, slot, v, h');
      assert HoldersApart(fs, ino, second, h, h') && Good(fs, HolderAt(fs, ino, h));
      PtrOfPut(fs.geo, fs.vol, HolderAt(fs, ino, h), slot.r, v, HolderAt(fs, ino, h'), q.r);
    }
  }

  // -------- what leaves a file alone --------

  /**
    From `fs` to `fs'` no block is freed; no used data block outside `touched`, no block
    still free and no reserved block changes.
   */
  ghost predicate Keeps(fs: Fs, fs': Fs, touched: set<nat>) {
    && Ok(fs) && Ok(fs') && fs'.geo == fs.geo && fs'.lay == fs.lay && |fs'.vol| == |fs.vol|
    && (forall b: nat :: IsFree(fs.geo, fs'.vol, fs.lay, b) ==> IsFree(fs.geo, fs.vol, fs.lay, b))
    && (forall b: nat :: Good(fs, b) && b !in touched ==> fs'.vol[b] == fs.vol[b])
    && (forall b: nat :: IsFree(fs.geo, fs'.vol, fs.lay, b) ==> b < |fs.vol| && fs'.vol[b] == fs.vol[b])
    && (forall b :: 0 <= b < |fs.vol| && fs.lay.roles[b].Reserved? ==> fs'.vol[b] == fs.vol[b])
  }

  lemma KeepsTransitive(fs: Fs, fs': Fs, fs'': Fs, touched: set<nat>)
    requires Keeps(fs, fs', touched) && Keeps(fs', fs'', touched)
    ensures Keeps(fs, fs'', touched)
  {
  }

  /** A free block is a data block of the volume. */
  lemma FreeIsData(fs: Fs, b: nat)
    requires Ok(fs) && IsFree(fs.geo, fs.vol, fs.lay, b)
    ensures b < |fs.vol| && fs.lay.roles[b] == Data && b < 0x1_0000_0000
  {
    var g, i := GroupOf(fs.geo, b), BitIn(fs.geo, b);
    assert BitMeans(fs.geo, fs.vol, fs.lay, OfBlocks, g, i);
    SplitNumber(fs.geo, g, i, b);
    UnitsOrdered(fs.geo.blocksPerGroup, g, fs.geo.groups);
  }

  lemma AllocKeeps(fs: Fs)
    requires Ok(fs) && AllocBlock(fs.geo, fs.vol, fs.lay).Some?
    ensures var (vol', nr) := AllocBlock(fs.geo, fs.vol, fs.lay).value;
      && 0 < nr < 0x1_0000_0000
      && Keeps(fs, fs.(vol := vol'), {}) && Good(fs.(vol := vol'), nr) && IsFree(fs.geo, fs.vol, fs.lay, nr)
  {
    AllocBlockIff(fs.geo, fs.vol, fs.lay);
    var fs' := fs.(vol := AllocBlock(fs.geo, fs.vol, fs.lay).value.0);
    forall b: nat | IsFree(fs.geo, fs'.vol, fs.lay, b) ensures b < |fs.vol| && fs'.vol[b] == fs.vol[b] {
      FreeIsData(fs, b);
    }
  }

  lemma FlushKeeps(fs: Fs, ino: Inode)
    requires Ok(fs) && InodeOk(fs.geo, ino)
    ensures Keeps(fs, PutInode(fs, ino), {})
  {
    PutInodeOk(fs, ino);
    FreesAreData(fs);
  }

  lemma FreesAreData(fs: Fs)
    requires Ok(fs)
    ensures forall b: nat :: IsFree(fs.geo, fs.vol, fs.lay, b) ==> b < |fs.vol| && fs.lay.roles[b] == Data
  {
    forall b: nat | IsFree(fs.geo, fs.vol, fs.lay, b) ensures b < |fs.vol| && fs.lay.roles[b] == Data {
      FreeIsData(fs, b);
    }
  }

  lemma KeepsSelf(fs: Fs)
    requires Ok(fs)
    ensures Keeps(fs, fs, {})
  {
    FreesAreData(fs);
  }

  lemma KeepsMore(fs: Fs, fs': Fs, touched: set<nat>)
    requires Keeps(fs, fs', {})
    ensures Keeps(fs, fs', touched)
  {
  }

  lemma PutPtrKeeps(fs: Fs, b: nat, r: nat, v: u32)
    requires Ok(fs) && Good(fs, b)
    ensures Keeps(fs, fs.(vol := PutPtr(fs.vol, b, r, v)), {b})
  {
    PlainWriteOk(fs.geo, fs.vol, fs.lay, PutPtr(fs.vol, b, r, v));
    FreesAreData(fs);
  }

  /** From `fs` to `fs'` no block is freed and the file's pointer blocks stay as they are. */
  ghost predicate Spares(fs: Fs, fs': Fs, ino: Inode, second: set<nat>) {
    && Ok(fs) && Ok(fs') && fs'.geo == fs.geo && fs'.lay == fs.lay && |fs'.vol| == |fs.vol|
    && HoldersOk(fs, ino, second)
    && (forall b: nat :: IsFree(fs.geo, fs'.vol, fs.lay, b) ==> IsFree(fs.geo, fs.vol, fs.lay, b))
    && (forall h :: HolderIn(fs, ino, second, h) ==> fs'.vol[HolderAt(fs, ino, h)] == fs.vol[HolderAt(fs, ino, h)])
  }

  lemma HolderFrame(fs: Fs, fs': Fs, ino: Inode, second: set<nat>, h: Holder)
    requires Spares(fs, fs', ino, second) && HoldersOk(fs, ino, second) && HolderIn(fs, ino, second, h)
    ensures HolderAt(fs', ino, h) == HolderAt(fs, ino, h) && Good(fs', HolderAt(fs, ino, h))
  {
    if h.Second? {
      assert HolderIn(fs, ino, second, Double) && Good(fs, HolderAt(fs, ino, Double));
    }
  }

  lemma LookupFrame(fs: Fs, fs': Fs, ino: Inode, second: set<nat>, slot: Slot)
    requires Spares(fs, fs', ino, second) && HoldersOk(fs, ino, second) && SlotIn(fs, ino, second, slot)
    ensures Lookup(fs', ino, slot) == Lookup(fs, ino, slot)
  {
    if !slot.InInode? {
      HolderFrame(fs, fs', ino, second, if slot.InSingly? then Single else Second(slot.k));
    }
  }

  lemma HoldersFrame(fs: Fs, fs': Fs, ino: Inode, second: set<nat>)
    requires Spares(fs, fs', ino, second) && HoldersOk(fs, ino, second)
    ensures HoldersOk(fs', ino, second)
  {
    forall h | HolderIn(fs', ino, second, h) ensures Good(fs', HolderAt(fs', ino, h)) {
      HolderFrame(fs, fs', ino, second, h);
    }
    forall h, h' ensures HoldersApart(fs', ino, second, h, h') {
      if HolderIn(fs, ino, second, h) && HolderIn(fs, ino, second, h') {
        HolderFrame(fs, fs', ino, second, h);
        HolderFrame(fs, fs', ino, second, h');
        assert HoldersApart(fs, ino, second, h, h');
      }
    }
  }

  // -------- a file of `n` blocks --------

  ghost predicate NotHolder(fs: Fs, ino: Inode, second: set<nat>, b: nat) {
    forall h :: HolderIn(fs, ino, second, h) ==> HolderAt(fs, ino, h) != b
  }

  /** Block `j` has a place for its address, and its address is a used data block that holds no pointers. */
  ghost predicate BlockOk(fs: Fs, ino: Inode, second: set<nat>, j: nat)
    requires Ok(fs) && j < MaxIndex(fs.geo)
  {
    && SlotIn(fs, ino, second, Decode(fs.geo, j))
    && Good(fs, GetAddr(fs, ino, j)) && NotHolder(fs, ino, second, GetAddr(fs, ino, j))
  }

  ghost predicate AddrsApart(fs: Fs, ino: Inode, j: nat, k: nat)
    requires GeoOk(fs.geo) && j < MaxIndex(fs.geo) && k < MaxIndex(fs.geo)
  {
    j != k ==> GetAddr(fs, ino, j) != GetAddr(fs, ino, k)
  }

  ghost predicate FileOk(fs: Fs, ino: Inode, second: set<nat>, n: nat) {
    && Ok(fs) && InodeOk(fs.geo, ino) && HoldersOk(fs, ino, second) && n <= MaxIndex(fs.geo)
    && (forall j :: 0 <= j < n ==> BlockOk(fs, ino, second, j))
    && (forall j, k :: 0 <= j < n && 0 <= k < n ==> AddrsApart(fs, ino, j, k))
  }

  /** A used data block that the file does not have yet. */
  ghost predicate Fresh(fs: Fs, ino: Inode, second: set<nat>, n: nat, b: nat)
    requires Ok(fs) && n <= MaxIndex(fs.geo)
  {
    && Good(fs, b) && NotHolder(fs, ino, second, b)
    && forall j :: 0 <= j < n ==> GetAddr(fs, ino, j) != b
  }

  ghost predicate SameAddrs(fs: Fs, ino: Inode, fs': Fs, ino': Inode, n: nat) {
    && GeoOk(fs.geo) && fs'.geo == fs.geo && n <= MaxIndex(fs.geo)
    && forall j :: 0 <= j < n ==> GetAddr(fs', ino', j) == GetAddr(fs, ino, j)
  }

  lemma FileFrame(fs: Fs, fs': Fs, ino: Inode, second: set<nat>, n: nat)
    requires Spares(fs, fs', ino, second) && FileOk(fs, ino, second, n)
    ensures FileOk(fs', ino, second, n) && SameAddrs(fs, ino, fs', ino, n)
  {
    HoldersFrame(fs, fs', ino, second);
    forall j | 0 <= j < n
      ensures GetAddr(fs', ino, j) == GetAddr(fs, ino, j) && BlockOk(fs', ino, second, j)
    {
      assert BlockOk(fs, ino, second, j);
      LookupFrame(fs, fs', ino, second, Decode(fs.geo, j));
      forall h | HolderIn(fs', ino, second, h) ensures HolderAt(fs', ino, h) != GetAddr(fs', ino, j) {
        HolderFrame(fs, fs', ino, second, h);
      }
    }
    forall j, k | 0 <= j < n && 0 <= k < n ensures AddrsApart(fs', ino, j, k) {
      assert AddrsApart(fs, ino, j, k);
    }
  }

  lemma FreshFrame(fs: Fs, fs': Fs, ino: Inode, second: set<nat>, n: nat, b: nat)
    requires Keeps(fs, fs', {}) && FileOk(fs, ino, second, n)
    requires Fresh(fs, ino, second, n, b) || (IsFree(fs.geo, fs.vol, fs.lay, b) && Good(fs', b))
    ensures Fresh(fs', ino, second, n, b)
  {
    FileFrame(fs, fs', ino, second, n);
    forall h | HolderIn(fs', ino, second, h) ensures HolderAt(fs', ino, h) != b {
      HolderFrame(fs, fs', ino, second, h);
      assert Good(fs, HolderAt(fs, ino, h));
    }
    forall j | 0 <= j < n ensures GetAddr(fs', ino, j) != b {
      assert BlockOk(fs, ino, second, j);
    }
  }

  // -------- adding a pointer block --------

  /** From `(fs, ino, second)` to the primed state the file gains the pointer block `h0`, and nothing else moves. */
  ghost predicate Gains(fs: Fs, ino: Inode, second: set<nat>, fs': Fs, ino': Inode, second': set<nat>, n: nat, h0: Holder) {
    && FileOk(fs, ino, second, n) && Ok(fs') && InodeOk(fs'.geo, ino') && fs'.geo == fs.geo
    && !HolderIn(fs, ino, second, h0) && Fresh(fs, ino, second, n, HolderAt(fs', ino', h0))
    && (forall h :: HolderIn(fs', ino', second', h) <==> HolderIn(fs, ino, second, h) || h == h0)
    && (forall h :: HolderIn(fs, ino, second, h) ==> HolderAt(fs', ino', h) == HolderAt(fs, ino, h))
    && SameAddrs(fs, ino, fs', ino', n)
    && (forall b: nat :: Good(fs, b) ==> Good(fs', b))
  }

  lemma GainsOk(fs: Fs, ino: Inode, second: set<nat>, fs': Fs, ino': Inode, second': set<nat>, n: nat, h0: Holder)
    requires Gains(fs, ino, second, fs', ino', second', n, h0)
    ensures FileOk(fs', ino', second', n)
  {
    forall h, h' ensures HoldersApart(fs', ino', second', h, h') {
      assert HoldersApart(fs, ino, second, h, h');
    }
    forall j | 0 <= j < n ensures BlockOk(fs', ino', second', j) {
      assert BlockOk(fs, ino, second, j);
      SlotKept(fs, ino, second, fs', ino', second', n, h0, Decode(fs.geo, j));
    }
    forall j, k | 0 <= j < n && 0 <= k < n ensures AddrsApart(fs', ino', j, k) {
      assert AddrsApart(fs, ino, j, k);
    }
  }

  lemma SlotKept(fs: Fs, ino: Inode, second: set<nat>, fs': Fs, ino': Inode, second': set<nat>, n: nat, h0: Holder, slot: Slot)
    requires Gains(fs, ino, second, fs', ino', second', n, h0) && SlotIn(fs, ino, second, slot)
    ensures SlotIn(fs', ino', second', slot)
  {
    match slot
    case InInode(_) =>
    case InSingly(_) => assert HolderIn(fs, ino, second, Single);
    case InSecond(k, _) => assert HolderIn(fs, ino, second, Second(k));
  }

  lemma GainsFresh(fs: Fs, ino: Inode, second: set<nat>, fs': Fs, ino': Inode, second': set<nat>, n: nat, h0: Holder, b: nat)
    requires Gains(fs, ino, second, fs', ino', second', n, h0)
    requires Fresh(fs, ino, second, n, b) && b != HolderAt(fs', ino', h0)
    ensures Fresh(fs', ino', second', n, b)
  {
  }

  lemma AddSingle(fs: Fs, ino: Inode, second: set<nat>, n: nat, s: u32)
    requires FileOk(fs, ino, second, n) && Word(ino, SINGLY) == 0 && s != 0 && Fresh(fs, ino, second, n, s)
    ensures Gains(fs, ino, second, fs, SetWord(ino, SINGLY, s), second, n, Single)
  {
    var ino' := SetWord(ino, SINGLY, s);
    forall j | 0 <= j < n ensures GetAddr(fs, ino', j) == GetAddr(fs, ino, j) {
      assert BlockOk(fs, ino, second, j);
    }
  }

  lemma AddDouble(fs: Fs, ino: Inode, n: nat, d: u32)
    requires FileOk(fs, ino, {}, n) && Word(ino, DOUBLY) == 0 && d != 0 && Fresh(fs, ino, {}, n, d)
    ensures Gains(fs, ino, {}, fs, SetWord(ino, DOUBLY, d), {}, n, Double)
  {
    var ino' := SetWord(ino, DOUBLY, d);
    forall j | 0 <= j < n ensures GetAddr(fs, ino', j) == GetAddr(fs, ino, j) {
      assert BlockOk(fs, ino, {}, j);
    }
  }

  lemma AddSecond(fs: Fs, ino: Inode, second: set<nat>, n: nat, k: nat, e: u32)
    requires FileOk(fs, ino, second, n) && Word(ino, DOUBLY) != 0 && k !in second && k < PerBlock(fs.geo)
    requires Fresh(fs, ino, second, n, e)
    ensures Gains(fs, ino, second, fs.(vol := PutPtr(fs.vol, Word(ino, DOUBLY), k, e)), ino, second + {k}, n, Second(k))
  {
    var d := Word(ino, DOUBLY);
    var fs' := fs.(vol := PutPtr(fs.vol, d, k, e));
    assert HolderIn(fs, ino, second, Double) && Good(fs, HolderAt(fs, ino, Double));
    PutPtrKeeps(fs, d, k, e);
    PtrOfPut(fs.geo, fs.vol, d, k, e, d, k);
    forall h | HolderIn(fs, ino, second, h) ensures HolderAt(fs', ino, h) == HolderAt(fs, ino, h) {
      if h.Second? {
        PtrOfPut(fs.geo, fs.vol, d, k, e, d, h.k);
      }
    }
    forall j | 0 <= j < n ensures GetAddr(fs', ino, j) == GetAddr(fs, ino, j) {
      assert BlockOk(fs, ino, second, j);
      SecondLookup(fs, ino, second, k, e, Decode(fs.geo, j));
    }
  }

  lemma SecondLookup(fs: Fs, ino: Inode, second: set<nat>, k: nat, e: u32, slot: Slot)
    requires Ok(fs) && HoldersOk(fs, ino, second) && Word(ino, DOUBLY) != 0 && k !in second && k < PerBlock(fs.geo)
    requires SlotIn(fs, ino, second, slot)
    ensures Lookup(fs.(vol := PutPtr(fs.vol, Word(ino, DOUBLY), k, e)), ino, slot) == Lookup(fs, ino, slot)
  {
    var d := Word(ino, DOUBLY);
    assert HolderIn(fs, ino, second, Double) && Good(fs, HolderAt(fs, ino, Double));
    if !slot.InInode? {
      var h := if slot.InSingly? then Single else Second(slot.k);
      assert HoldersApart(fs, ino, second, Double, h);
      PtrOfPut(fs.geo, fs.vol, d, k, e, HolderAt(fs, ino, h), slot.r);
      if slot.InSecond? {
        PtrOfPut(fs.geo, fs.vol, d, k, e, d, slot.k);
      }
    }
  }

  // -------- set_block_address --------

  function GiveSingle(fs: Fs, ino: Inode): (r: Option<(Fs, Inode)>)
    requires Ok(fs) && InodeOk(fs.geo, ino)
    ensures r.Some? ==> Ok(r.value.0) && r.value.0.geo == fs.geo && InodeOk(fs.geo, r.value.1)
  {
    match AllocBlock(fs.geo, fs.vol, fs.lay)
    case None => None
    case Some((vol1, s)) =>
      AllocKeeps(fs);
      var fs1, ino1 := fs.(vol := vol1), SetWord(ino, SINGLY, s);
      FlushKeeps(fs1, ino1);
      Some((PutInode(fs1, ino1), ino1))
  }

  /** The doubly indirect block together with the second-level block of entry `k`; neither is cleared. */
  function GiveDouble(fs: Fs, ino: Inode, k: nat): (r: Option<(Fs, Inode)>)
    requires Ok(fs) && InodeOk(fs.geo, ino)
    ensures r.Some? ==> Ok(r.value.0) && r.value.0.geo == fs.geo && InodeOk(fs.geo, r.value.1)
  {
    match AllocBlock(fs.geo, fs.vol, fs.lay)
    case None => None
    case Some((vol1, d)) =>
      AllocKeeps(fs);
      var fs1, ino1 := fs.(vol := vol1), SetWord(ino, DOUBLY, d);
      FlushKeeps(fs1, ino1);
      var fs2 := PutInode(fs1, ino1);
      match AllocBlock(fs2.geo, fs2.vol, fs2.lay)
      case None => None
      case Some((vol3, e)) =>
        AllocKeeps(fs2);
        var fs3 := fs2.(vol := vol3);
        PutPtrKeeps(fs3, d, k, e);
        Some((fs3.(vol := PutPtr(fs3.vol, d, k, e)), ino1))
  }

  /** The pointer blocks on the way to a slot, allocated where the inode has none. */
  function Prepare(fs: Fs, ino: Inode, slot: Slot): (r: Option<(Fs, Inode)>)
    requires Ok(fs) && InodeOk(fs.geo, ino)
    ensures r.Some? ==> Ok(r.value.0) && r.value.0.geo == fs.geo && InodeOk(fs.geo, r.value.1)
  {
    match slot
    case InInode(_) => Some((fs, ino))
    case InSingly(_) => if Word(ino, SINGLY) != 0 then Some((fs, ino)) else GiveSingle(fs, ino)
    case InSecond(k, _) => if Word(ino, DOUBLY) != 0 then Some((fs, ino)) else GiveDouble(fs, ino, k)
  }

  /** `set_block_address`; `None` is the panic on a full volume, and the triply indirect range does nothing. */
  function SetAddr(fs: Fs, ino: Inode, index: nat, v: u32): Option<(Fs, Inode)>
    requires Ok(fs) && InodeOk(fs.geo, ino)
  {
    if index >= MaxIndex(fs.geo) then Some((fs, ino))
    else
      DecodeEncode(fs.geo, index);
      var slot := Decode(fs.geo, index);
      match Prepare(fs, ino, slot)
      case None => None
      case Some((fs1, ino1)) =>
        var (fs2, ino2) := PutSlot(fs1, ino1, slot, v);
        Some((if slot.InInode? then PutInode(fs2, ino2) else fs2, ino2))
  }

  /** The second-level entries in use once the way to `slot` is prepared. */
  function Prepared(ino: Inode, second: set<nat>, slot: Slot): set<nat> {
    if slot.InSecond? && Word(ino, DOUBLY) == 0 then {slot.k} else second
  }

  /** The way to a slot is there, or the inode lacks the whole indirect branch and the call allocates it. */
  predicate Ready(ino: Inode, second: set<nat>, slot: Slot) {
    slot.InSecond? ==> if Word(ino, DOUBLY) == 0 then second == {} else slot.k in second
  }

  ghost predicate SameSlots(fs: Fs, ino: Inode, second: set<nat>, fs': Fs, ino': Inode, second': set<nat>) {
    fs'.geo == fs.geo && forall q :: SlotIn(fs, ino, second, q) ==>
      SlotIn(fs', ino', second', q) && Lookup(fs', ino', q) == Lookup(fs, ino, q)
  }

  lemma SlotsFrame(fs: Fs, fs': Fs, ino: Inode, second: set<nat>)
    requires Spares(fs, fs', ino, second)
    ensures SameSlots(fs, ino, second, fs', ino, second)
  {
    forall q | SlotIn(fs, ino, second, q) ensures Lookup(fs', ino, q) == Lookup(fs, ino, q) {
      LookupFrame(fs, fs', ino, second, q);
    }
  }

  lemma SameSlotsAddrs(fs: Fs, ino: Inode, second: set<nat>, fs': Fs, ino': Inode, second': set<nat>, n: nat)
    requires FileOk(fs, ino, second, n) && SameSlots(fs, ino, second, fs', ino', second')
    ensures SameAddrs(fs, ino, fs', ino', n)
  {
    forall j | 0 <= j < n ensures GetAddr(fs', ino', j) == GetAddr(fs, ino, j) {
      assert BlockOk(fs, ino, second, j);
    }
  }

  /** A block already allocated and waiting to be stored; 0 when there is none. */
  ghost predicate Pending(fs: Fs, ino: Inode, second: set<nat>, n: nat, b: nat)
    requires Ok(fs) && n <= MaxIndex(fs.geo)
  {
    b == 0 || Fresh(fs, ino, second, n, b)
  }

  ghost predicate SameHolders(fs: Fs, ino: Inode, second: set<nat>, fs': Fs, ino': Inode, second': set<nat>) {
    forall h :: HolderIn(fs, ino, second, h) ==>
      HolderIn(fs', ino', second', h) && HolderAt(fs', ino', h) == HolderAt(fs, ino, h)
  }

  /** A file of `n` blocks comes through a step whole, and `b`, if any, is still not one of its blocks. */
  ghost predicate Carries(fs: Fs, ino: Inode, second: set<nat>, fs': Fs, ino': Inode, second': set<nat>, n: nat, b: nat) {
    && FileOk(fs, ino, second, n) && FileOk(fs', ino', second', n)
    && SameSlots(fs, ino, second, fs', ino', second') && SameHolders(fs, ino, second, fs', ino', second')
    && Pending(fs', ino', second', n, b)
  }

  lemma CarriesTransitive(
    fs: Fs, ino: Inode, second: set<nat>, fs1: Fs, ino1: Inode, second1: set<nat>,
    fs2: Fs, ino2: Inode, second2: set<nat>, n: nat, b: nat)
    requires Carries(fs, ino, second, fs1, ino1, second1, n, b)
    requires Carries(fs1, ino1, second1, fs2, ino2, second2, n, b)
    ensures Carries(fs, ino, second, fs2, ino2, second2, n, b)
  {
  }

  lemma FrameCarries(fs: Fs, fs': Fs, ino: Inode, second: set<nat>, n: nat, b: nat)
    requires Keeps(fs, fs', {}) && FileOk(fs, ino, second, n) && Pending(fs, ino, second, n, b)
    ensures Carries(fs, ino, second, fs', ino, second, n, b)
  {
    FileFrame(fs, fs', ino, second, n);
    if b != 0 {
      FreshFrame(fs, fs', ino, second, n, b);
    }
    SlotsFrame(fs, fs', ino, second);
    forall h | HolderIn(fs, ino, second, h) ensures HolderAt(fs', ino, h) == HolderAt(fs, ino, h) {
      HolderFrame(fs, fs', ino, second, h);
    }
  }

  lemma GainCarries(fs: Fs, ino: Inode, second: set<nat>, fs': Fs, ino': Inode, second': set<nat>, n: nat, h0: Holder, b: nat)
    requires Gains(fs, ino, second, fs', ino', second', n, h0) && SameSlots(fs, ino, second, fs', ino', second')
    requires Pending(fs, ino, second, n, b) && b != HolderAt(fs', ino', h0)
    ensures Carries(fs, ino, second, fs', ino', second', n, b)
  {
    GainsOk(fs, ino, second, fs', ino', second', n, h0);
    if b != 0 {
      GainsFresh(fs, ino, second, fs', ino', second', n, h0, b);
    }
  }

  /** An allocation: the file is carried along and the new block is a second block it does not have. */
  lemma AllocCarries(fs: Fs, ino: Inode, second: set<nat>, n: nat, b: nat)
    requires FileOk(fs, ino, second, n) && Pending(fs, ino, second, n, b) && AllocBlock(fs.geo, fs.vol, fs.lay).Some?
    ensures var (vol', nr) := AllocBlock(fs.geo, fs.vol, fs.lay).value;
      && Carries(fs, ino, second, fs.(vol := vol'), ino, second, n, b) && Keeps(fs, fs.(vol := vol'), {})
      && Fresh(fs.(vol := vol'), ino, second, n, nr) && nr != b && 0 < nr < 0x1_0000_0000
      && IsFree(fs.geo, fs.vol, fs.lay, nr)
  {
    AllocKeeps(fs);
    var (vol', nr) := AllocBlock(fs.geo, fs.vol, fs.lay).value;
    FrameCarries(fs, fs.(vol := vol'), ino, second, n, b);
    FreshFrame(fs, fs.(vol := vol'), ino, second, n, nr);
  }

  lemma GiveSingleOk(fs: Fs, ino: Inode, second: set<nat>, n: nat, b: nat)
    requires FileOk(fs, ino, second, n) && Pending(fs, ino, second, n, b)
    requires Word(ino, SINGLY) == 0 && GiveSingle(fs, ino).Some?
    ensures var (fs', ino') := GiveSingle(fs, ino).value;
      Carries(fs, ino, second, fs', ino', second, n, b) && Keeps(fs, fs', {}) && Word(ino', SINGLY) != 0
  {
    var (vol1, s) := AllocBlock(fs.geo, fs.vol, fs.lay).value;
    AllocCarries(fs, ino, second, n, b);
    var fs1, ino1 := fs.(vol := vol1), SetWord(ino, SINGLY, s);
    AddSingle(fs1, ino, second, n, s);
    GainCarries(fs1, ino, second, fs1, ino1, second, n, Single, b);
    FlushKeeps(fs1, ino1);
    var fs2 := PutInode(fs1, ino1);
    FrameCarries(fs1, fs2, ino1, second, n, b);
    KeepsTransitive(fs, fs1, fs2, {});
    CarriesTransitive(fs, ino, second, fs1, ino, second, fs1, ino1, second, n, b);
    CarriesTransitive(fs, ino, second, fs1, ino1, second, fs2, ino1, second, n, b);
  }

  lemma KeepsThroughFresh(fs: Fs, fs': Fs, fs'': Fs, d: nat)
    requires Keeps(fs, fs', {}) && Keeps(fs', fs'', {d}) && !Good(fs, d)
    ensures Keeps(fs, fs'', {})
  {
  }

  /** The first half of `GiveDouble`: the doubly indirect block, flushed, with no entry in use. */
  lemma GiveDoubleBlock(fs: Fs, ino: Inode, n: nat, b: nat)
    requires FileOk(fs, ino, {}, n) && Pending(fs, ino, {}, n, b)
    requires Word(ino, DOUBLY) == 0 && AllocBlock(fs.geo, fs.vol, fs.lay).Some?
    ensures var (vol1, d) := AllocBlock(fs.geo, fs.vol, fs.lay).value;
      && 0 < d < 0x1_0000_0000 && Ok(fs.(vol := vol1)) && !Good(fs, d)
      && var ino1 := SetWord(ino, DOUBLY, d);
         var fs2 := PutInode(fs.(vol := vol1), ino1);
         Carries(fs, ino, {}, fs2, ino1, {}, n, b) && Keeps(fs, fs2, {})
  {
    var (vol1, d) := AllocBlock(fs.geo, fs.vol, fs.lay).value;
    AllocCarries(fs, ino, {}, n, b);
    var fs1, ino1 := fs.(vol := vol1), SetWord(ino, DOUBLY, d);
    AddDouble(fs1, ino, n, d);
    GainCarries(fs1, ino, {}, fs1, ino1, {}, n, Double, b);
    FlushKeeps(fs1, ino1);
    var fs2 := PutInode(fs1, ino1);
    FrameCarries(fs1, fs2, ino1, {}, n, b);
    KeepsTransitive(fs, fs1, fs2, {});
    CarriesTransitive(fs, ino, {}, fs1, ino, {}, fs1, ino1, {}, n, b);
    CarriesTransitive(fs, ino, {}, fs1, ino1, {}, fs2, ino1, {}, n, b);
  }

  lemma GiveDoubleOk(fs: Fs, ino: Inode, n: nat, k: nat, b: nat)
    requires FileOk(fs, ino, {}, n) && Pending(fs, ino, {}, n, b) && k < PerBlock(fs.geo)
    requires Word(ino, DOUBLY) == 0 && GiveDouble(fs, ino, k).Some?
    ensures var (fs', ino') := GiveDouble(fs, ino, k).value;
      Carries(fs, ino, {}, fs', ino', {k}, n, b) && Keeps(fs, fs', {}) && Word(ino', DOUBLY) != 0
  {
    var (vol1, d) := AllocBlock(fs.geo, fs.vol, fs.lay).value;
    GiveDoubleBlock(fs, ino, n, b);
    var ino1 := SetWord(ino, DOUBLY, d);
    var fs2 := PutInode(fs.(vol := vol1), ino1);
    var (vol3, e) := AllocBlock(fs2.geo, fs2.vol, fs2.lay).value;
    AllocCarries(fs2, ino1, {}, n, b);
    var fs3 := fs2.(vol := vol3);
    SecondStep(fs3, ino1, n, k, e, b);
    var fs4 := fs3.(vol := PutPtr(fs3.vol, d, k, e));
    KeepsTransitive(fs, fs2, fs3, {});
    KeepsThroughFresh(fs, fs3, fs4, d);
    CarriesTransitive(fs, ino, {}, fs2, ino1, {}, fs3, ino1, {}, n, b);
    CarriesTransitive(fs, ino, {}, fs3, ino1, {}, fs4, ino1, {k}, n, b);
  }

  lemma SecondStep(fs: Fs, ino: Inode, n: nat, k: nat, e: u32, b: nat)
    requires FileOk(fs, ino, {}, n) && Word(ino, DOUBLY) != 0 && k < PerBlock(fs.geo)
    requires Fresh(fs, ino, {}, n, e) && Pending(fs, ino, {}, n, b) && b != e
    ensures var fs' := fs.(vol := PutPtr(fs.vol, Word(ino, DOUBLY), k, e));
      Carries(fs, ino, {}, fs', ino, {k}, n, b) && Keeps(fs, fs', {Word(ino, DOUBLY) as nat})
  {
    var d := Word(ino, DOUBLY);
    var fs' := fs.(vol := PutPtr(fs.vol, d, k, e));
    AddSecond(fs, ino, {}, n, k, e);
    assert {} + {k} == {k};
    assert HolderIn(fs, ino, {}, Double) && Good(fs, HolderAt(fs, ino, Double));
    PutPtrKeeps(fs, d, k, e);
    PtrOfPut(fs.geo, fs.vol, d, k, e, d, k);
    forall q | SlotIn(fs, ino, {}, q) ensures SlotIn(fs', ino, {k}, q) && Lookup(fs', ino, q) == Lookup(fs, ino, q) {
      SecondLookup(fs, ino, {}, k, e, q);
    }
    GainCarries(fs, ino, {}, fs', ino, {k}, n, Second(k), b);
  }

  lemma PrepareOk(fs: Fs, ino: Inode, second: set<nat>, n: nat, slot: Slot, b: nat)
    requires FileOk(fs, ino, second, n) && Pending(fs, ino, second, n, b)
    requires SlotOk(fs.geo, slot) && Ready(ino, second, slot) && Prepare(fs, ino, slot).Some?
    ensures var (fs', ino') := Prepare(fs, ino, slot).value;
      var second' := Prepared(ino, second, slot);
      && Carries(fs, ino, second, fs', ino', second', n, b) && Keeps(fs, fs', {})
      && SlotIn(fs', ino', second', slot)
  {
    hide FsOk;
    FrameCarries(fs, fs, ino, second, n, b) by { KeepsSelf(fs); }
    KeepsSelf(fs);
    match slot
    case InInode(_) =>
    case InSingly(_) =>
      if Word(ino, SINGLY) == 0 {
        GiveSingleOk(fs, ino, second, n, b);
      }
    case InSecond(k, _) =>
      if Word(ino, DOUBLY) == 0 {
        GiveDoubleOk(fs, ino, n, k, b);
      }
  }

  // -------- the pointer map --------

  /**
    `get_block_address` after `set_block_address`: the index set reads back what was
    stored, and every other index whose pointers exist resolves as before.
   */
  lemma SetThenGet(fs: Fs, ino: Inode, second: set<nat>, index: nat, v: u32, j: nat)
    requires Ok(fs) && InodeOk(fs.geo, ino) && HoldersOk(fs, ino, second)
    requires index < MaxIndex(fs.geo) && j < MaxIndex(fs.geo)
    requires Ready(ino, second, Decode(fs.geo, index))
    requires j == index || SlotIn(fs, ino, second, Decode(fs.geo, j))
    requires SetAddr(fs, ino, index, v).Some?
    ensures var (fs', ino') := SetAddr(fs, ino, index, v).value;
      fs'.geo == fs.geo && GetAddr(fs', ino', j) == if j == index then v else GetAddr(fs, ino, j)
  {
    var slot, q := Decode(fs.geo, index), Decode(fs.geo, j);
    DecodeEncode(fs.geo, index);
    DecodeEncode(fs.geo, j);
    PrepareOk(fs, ino, second, 0, slot, 0);
    var (fs1, ino1) := Prepare(fs, ino, slot).value;
    PutSlotLookup(fs1, ino1, Prepared(ino, second, slot), slot, v, q);
    if slot.InInode? {
      var (fs2, ino2) := PutSlot(fs1, ino1, slot, v);
      PutSlotHolders(fs1, ino1, second, slot, v);
      FlushKeeps(fs2, ino2);
      LookupFrame(fs2, PutInode(fs2, ino2), ino2, second, q);
    }
  }

  // -------- growing a file by one block --------

  /** The blocks of the volume that hold the file's pointers. */
  ghost function HolderBlocks(fs: Fs, ino: Inode, second: set<nat>): set<nat> {
    (if Word(ino, SINGLY) != 0 then {Word(ino, SINGLY) as nat} else {}) +
    (if Word(ino, DOUBLY) != 0
     then {Word(ino, DOUBLY) as nat} + set k | k in second && k < PerBlock(fs.geo) :: PtrIn(fs.vol, Word(ino, DOUBLY), k) as nat
     else {})
  }

  lemma PutSlotKeeps(fs: Fs, ino: Inode, second: set<nat>, slot: Slot, v: u32)
    requires Ok(fs) && HoldersOk(fs, ino, second) && SlotIn(fs, ino, second, slot)
    ensures Keeps(fs, PutSlot(fs, ino, slot, v).0, HolderBlocks(fs, ino, second))
  {
    hide BitMeans, Counted, GroupPlaced, FreeBit;
    if slot.InInode? {
      KeepsSelf(fs);
      KeepsMore(fs, fs, HolderBlocks(fs, ino, second));
    } else {
      var h := if slot.InSingly? then Single else Second(slot.k);
      assert Good(fs, HolderAt(fs, ino, h));
      PutPtrKeeps(fs, HolderAt(fs, ino, h), slot.r, v);
      assert HolderAt(fs, ino, h) in HolderBlocks(fs, ino, second);
    }
  }

  lemma PutSlotHolders(fs: Fs, ino: Inode, second: set<nat>, slot: Slot, v: u32)
    requires Ok(fs) && HoldersOk(fs, ino, second) && SlotIn(fs, ino, second, slot)
    ensures var (fs', ino') := PutSlot(fs, ino, slot, v);
      Ok(fs') && HoldersOk(fs', ino', second)
  {
    var (fs', ino') := PutSlot(fs, ino, slot, v);
    PutSlotKeeps(fs, ino, second, slot, v);
    forall h | HolderIn(fs', ino', second, h)
      ensures HolderIn(fs, ino, second, h) && HolderAt(fs', ino', h) == HolderAt(fs, ino, h) && Good(fs', HolderAt(fs', ino', h))
    {
      PutSlotHolder(fs, ino, second, slot, v, h);
    }
    forall h, h' ensures HoldersApart(fs', ino', second, h, h') {
      assert HoldersApart(fs, ino, second, h, h');
    }
  }

  /** Storing a block the file does not have yet in the slot of index `n` makes a file of `n + 1` blocks. */
  lemma AddBlock(fs: Fs, ino: Inode, second: set<nat>, n: nat, v: u32)
    requires FileOk(fs, ino, second, n) && n < MaxIndex(fs.geo)
    requires SlotIn(fs, ino, second, Decode(fs.geo, n)) && Fresh(fs, ino, second, n, v)
    ensures var (fs', ino') := PutSlot(fs, ino, Decode(fs.geo, n), v);
      FileOk(fs', ino', second, n + 1) && SameAddrs(fs, ino, fs', ino', n) && GetAddr(fs', ino', n) == v
  {
    var slot := Decode(fs.geo, n);
    var (fs', ino') := PutSlot(fs, ino, slot, v);
    PutSlotHolders(fs, ino, second, slot, v);
    PutSlotKeeps(fs, ino, second, slot, v);
    forall j | 0 <= j <= n
      ensures GetAddr(fs', ino', j) == if j == n then v else GetAddr(fs, ino, j)
      ensures BlockOk(fs', ino', second, j)
    {
      AddBlockAt(fs, ino, second, n, v, j);
    }
    forall j, k | 0 <= j < n + 1 && 0 <= k < n + 1 ensures AddrsApart(fs', ino', j, k) {
      if j < n && k < n {
        assert AddrsApart(fs, ino, j, k);
      }
    }
  }

  lemma AddBlockAt(fs: Fs, ino: Inode, second: set<nat>, n: nat, v: u32, j: nat)
    requires FileOk(fs, ino, second, n) && n < MaxIndex(fs.geo) && j <= n
    requires SlotIn(fs, ino, second, Decode(fs.geo, n)) && Fresh(fs, ino, second, n, v)
    requires Ok(PutSlot(fs, ino, Decode(fs.geo, n), v).0)
    ensures var (fs', ino') := PutSlot(fs, ino, Decode(fs.geo, n), v);
      && GetAddr(fs', ino', j) == (if j == n then v else GetAddr(fs, ino, j))
      && BlockOk(fs', ino', second, j)
  {
    var slot := Decode(fs.geo, n);
    var (fs', ino') := PutSlot(fs, ino, slot, v);
    DecodeEncode(fs.geo, n);
    DecodeEncode(fs.geo, j);
    assert j < n ==> BlockOk(fs, ino, second, j);
    PutSlotLookup(fs, ino, second, slot, v, Decode(fs.geo, j));
    PutSlotKeeps(fs, ino, second, slot, v);
    forall h | HolderIn(fs', ino', second, h) ensures HolderAt(fs', ino', h) != GetAddr(fs', ino', j) {
      PutSlotHolder(fs, ino, second, slot, v, h);
    }
  }

  /** What the growth code keeps in use under the doubly indirect block: its first entry. */
  function SecondOf(ino: Inode): set<nat> {
    if Word(ino, DOUBLY) != 0 then {0} else {}
  }

  /** One turn of the loop in `resize`: a new block, stored as block `n`. */
  function Grow(fs: Fs, ino: Inode, n: nat): Option<(Fs, Inode)>
    requires Ok(fs) && InodeOk(fs.geo, ino)
  {
    match AllocBlock(fs.geo, fs.vol, fs.lay)
    case None => None
    case Some((vol1, nr)) =>
      AllocKeeps(fs);
      SetAddr(fs.(vol := vol1), ino, n, nr)
  }

  /** The largest file that growth can build: direct, singly indirect, and one second-level block. */
  function GrowthLimit(geo: Geometry): nat {
    12 + 2 * PerBlock(geo)
  }

  lemma GrowReady(fs: Fs, ino: Inode, n: nat)
    requires FileOk(fs, ino, SecondOf(ino), n) && n < GrowthLimit(fs.geo)
    ensures n < MaxIndex(fs.geo) && Ready(ino, SecondOf(ino), Decode(fs.geo, n))
    ensures Decode(fs.geo, n).InSecond? ==> Decode(fs.geo, n).k == 0
  {
    var m := PerBlock(fs.geo);
    MulMono(m, 1, m);
    if n >= 12 + m {
      DivModUnique(n - 12 - m, m, 0, n - 12 - m);
    }
  }

  /**
    From `n` to `m` blocks: old blocks keep their addresses, each new one was free, all
    are different used data blocks apart from the pointer blocks, and no used data block
    outside the file's pointer blocks has changed.
   */
  ghost predicate Grown(fs: Fs, ino: Inode, n: nat, fs': Fs, ino': Inode, m: nat) {
    && n <= m && FileOk(fs, ino, SecondOf(ino), n) && FileOk(fs', ino', SecondOf(ino'), m)
    && SameAddrs(fs, ino, fs', ino', n)
    && (forall j :: n <= j < m ==> IsFree(fs.geo, fs.vol, fs.lay, GetAddr(fs', ino', j)))
    && SameHolders(fs, ino, SecondOf(ino), fs', ino', SecondOf(ino'))
    && HoldersNew(fs, ino, SecondOf(ino), fs', ino', SecondOf(ino'))
    && Keeps(fs, fs', HolderBlocks(fs', ino', SecondOf(ino')))
    && Recorded(fs, ino, fs', ino')
  }

  lemma AllocRecords(fs: Fs, ino: Inode)
    requires Ok(fs) && InodeOk(fs.geo, ino) && AllocBlock(fs.geo, fs.vol, fs.lay).Some?
    ensures Recorded(fs, ino, fs.(vol := AllocBlock(fs.geo, fs.vol, fs.lay).value.0), ino)
  {
    hide BitMeans, Counted, GroupPlaced, FreeBit, Ext2Alloc.AllocBlock, Recorded;
    AllocBlockIff(fs.geo, fs.vol, fs.lay);
    AllocKeeps(fs);
    TablesKept(fs, fs.(vol := AllocBlock(fs.geo, fs.vol, fs.lay).value.0), ino);
  }

  lemma PutPtrRecords(fs: Fs, ino: Inode, b: nat, r: nat, v: u32)
    requires Ok(fs) && InodeOk(fs.geo, ino) && Good(fs, b)
    ensures Recorded(fs, ino, fs.(vol := PutPtr(fs.vol, b, r, v)), ino)
  {
    hide BitMeans, Counted, GroupPlaced, FreeBit, Recorded;
    PutPtrKeeps(fs, b, r, v);
    TablesKept(fs, fs.(vol := PutPtr(fs.vol, b, r, v)), ino);
  }

  lemma GiveSingleRecords(fs: Fs, ino: Inode)
    requires Ok(fs) && InodeOk(fs.geo, ino) && GiveSingle(fs, ino).Some?
    ensures var (fs', ino') := GiveSingle(fs, ino).value; Recorded(fs, ino, fs', ino')
  {
    hide BitMeans, Counted, GroupPlaced, FreeBit, Ext2Alloc.AllocBlock, Recorded, PutInode;
    AllocKeeps(fs);
    AllocRecords(fs, ino);
    var (vol1, s) := AllocBlock(fs.geo, fs.vol, fs.lay).value;
    var fs1, ino1 := fs.(vol := vol1), SetWord(ino, SINGLY, s);
    FlushRecords(fs1, ino, ino1);
    RecordedTransitive(fs, ino, fs1, ino, PutInode(fs1, ino1), ino1);
  }

  lemma GiveDoubleRecords(fs: Fs, ino: Inode, k: nat)
    requires Ok(fs) && InodeOk(fs.geo, ino) && GiveDouble(fs, ino, k).Some?
    ensures var (fs', ino') := GiveDouble(fs, ino, k).value; Recorded(fs, ino, fs', ino')
  {
    hide BitMeans, Counted, GroupPlaced, FreeBit, Ext2Alloc.AllocBlock, Recorded, PutInode;
    AllocKeeps(fs);
    AllocRecords(fs, ino);
    var (vol1, d) := AllocBlock(fs.geo, fs.vol, fs.lay).value;
    var fs1, ino1 := fs.(vol := vol1), SetWord(ino, DOUBLY, d);
    FlushRecords(fs1, ino, ino1);
    FlushKeeps(fs1, ino1);
    var fs2 := PutInode(fs1, ino1);
    RecordedTransitive(fs, ino, fs1, ino, fs2, ino1);
    AllocKeeps(fs2);
    AllocRecords(fs2, ino1);
    var (vol3, e) := AllocBlock(fs2.geo, fs2.vol, fs2.lay).value;
    var fs3 := fs2.(vol := vol3);
    RecordedTransitive(fs, ino, fs2, ino1, fs3, ino1);
    PutPtrRecords(fs3, ino1, d, k, e);
    RecordedTransitive(fs, ino, fs3, ino1, fs3.(vol := PutPtr(fs3.vol, d, k, e)), ino1);
  }

  lemma PrepareRecords(fs: Fs, ino: Inode, slot: Slot)
    requires Ok(fs) && InodeOk(fs.geo, ino) && Prepare(fs, ino, slot).Some?
    ensures var (fs', ino') := Prepare(fs, ino, slot).value; Recorded(fs, ino, fs', ino')
  {
    hide FsOk, GiveSingle, GiveDouble, Recorded;
    RecordedSelf(fs, ino);
    match slot
    case InInode(_) =>
    case InSingly(_) =>
      if Word(ino, SINGLY) == 0 {
        GiveSingleRecords(fs, ino);
      }
    case InSecond(k, _) =>
      if Word(ino, DOUBLY) == 0 {
        GiveDoubleRecords(fs, ino, k);
      }
  }

  lemma RecordedSelf(fs: Fs, ino: Inode)
    requires Ok(fs) && InodeOk(fs.geo, ino)
    ensures Recorded(fs, ino, fs, ino)
  {
    hide FsOk, GetInode;
  }

  lemma PutSlotRecords(fs: Fs, ino: Inode, second: set<nat>, slot: Slot, v: u32)
    requires Ok(fs) && InodeOk(fs.geo, ino) && HoldersOk(fs, ino, second) && SlotIn(fs, ino, second, slot)
    ensures var (fs', ino') := PutSlot(fs, ino, slot, v);
      && Ok(fs') && InodeOk(fs'.geo, ino')
      && Recorded(fs, ino, if slot.InInode? then PutInode(fs', ino') else fs', ino')
  {
    hide BitMeans, Counted, GroupPlaced, FreeBit, Recorded, PutInode;
    if slot.InInode? {
      FlushRecords(fs, ino, PutSlot(fs, ino, slot, v).1);
    } else {
      var h := if slot.InSingly? then Single else Second(slot.k);
      assert Good(fs, HolderAt(fs, ino, h));
      PutPtrKeeps(fs, HolderAt(fs, ino, h), slot.r, v);
      PutPtrRecords(fs, ino, HolderAt(fs, ino, h), slot.r, v);
    }
  }

  /** Pointer blocks the file did not have were free. */
  ghost predicate HoldersNew(fs: Fs, ino: Inode, second: set<nat>, fs': Fs, ino': Inode, second': set<nat>) {
    Ok(fs) && forall h :: HolderIn(fs', ino', second', h) ==> HolderWasFree(fs, ino, second, fs', ino', h)
  }

  ghost predicate HolderWasFree(fs: Fs, ino: Inode, second: set<nat>, fs': Fs, ino': Inode, h: Holder)
    requires Ok(fs)
  {
    HolderIn(fs, ino, second, h) || IsFree(fs.geo, fs.vol, fs.lay, HolderAt(fs', ino', h))
  }

  lemma HoldersNewTransitive(
    fs: Fs, ino: Inode, second: set<nat>, fs1: Fs, ino1: Inode, second1: set<nat>,
    fs2: Fs, ino2: Inode, second2: set<nat>, touched: set<nat>)
    requires HoldersNew(fs, ino, second, fs1, ino1, second1) && HoldersNew(fs1, ino1, second1, fs2, ino2, second2)
    requires SameHolders(fs1, ino1, second1, fs2, ino2, second2) && Keeps(fs, fs1, touched)
    ensures HoldersNew(fs, ino, second, fs2, ino2, second2)
  {
    hide FsOk, Good;
    forall h | HolderIn(fs2, ino2, second2, h) ensures HolderWasFree(fs, ino, second, fs2, ino2, h) {
      assert HolderWasFree(fs1, ino1, second1, fs2, ino2, h);
      if HolderIn(fs1, ino1, second1, h) {
        assert HolderWasFree(fs, ino, second, fs1, ino1, h);
      }
    }
  }

  lemma GiveSingleNew(fs: Fs, ino: Inode, second: set<nat>)
    requires Ok(fs) && InodeOk(fs.geo, ino) && GiveSingle(fs, ino).Some?
    ensures var (fs', ino') := GiveSingle(fs, ino).value; HoldersNew(fs, ino, second, fs', ino', second)
  {
    AllocKeeps(fs);
    var (fs', ino') := GiveSingle(fs, ino).value;
    forall h | HolderIn(fs', ino', second, h) ensures HolderWasFree(fs, ino, second, fs', ino', h) {
    }
  }

  lemma GiveDoubleNew(fs: Fs, ino: Inode, k: nat)
    requires Ok(fs) && InodeOk(fs.geo, ino) && k < PerBlock(fs.geo) && Word(ino, DOUBLY) == 0 && GiveDouble(fs, ino, k).Some?
    ensures var (fs', ino') := GiveDouble(fs, ino, k).value; HoldersNew(fs, ino, {}, fs', ino', {k})
  {
    hide BitMeans, Counted, GroupPlaced, PutInode, Ext2Alloc.AllocBlock, FreeBit;
    AllocKeeps(fs);
    var (vol1, d) := AllocBlock(fs.geo, fs.vol, fs.lay).value;
    var fs1, ino1 := fs.(vol := vol1), SetWord(ino, DOUBLY, d);
    FlushKeeps(fs1, ino1);
    var fs2 := PutInode(fs1, ino1);
    AllocKeeps(fs2);
    var (vol3, e) := AllocBlock(fs2.geo, fs2.vol, fs2.lay).value;
    PtrOfPut(fs.geo, vol3, d, k, e, d, k);
    var (fs', ino') := GiveDouble(fs, ino, k).value;
    forall h | HolderIn(fs', ino', {k}, h) ensures HolderWasFree(fs, ino, {}, fs', ino', h) {
    }
  }

  lemma PrepareNew(fs: Fs, ino: Inode, second: set<nat>, slot: Slot)
    requires Ok(fs) && InodeOk(fs.geo, ino) && SlotOk(fs.geo, slot) && Ready(ino, second, slot) && Prepare(fs, ino, slot).Some?
    ensures var (fs', ino') := Prepare(fs, ino, slot).value;
      HoldersNew(fs, ino, second, fs', ino', Prepared(ino, second, slot))
  {
    match slot
    case InInode(_) =>
    case InSingly(_) =>
      if Word(ino, SINGLY) == 0 {
        GiveSingleNew(fs, ino, second);
      }
    case InSecond(k, _) =>
      if Word(ino, DOUBLY) == 0 {
        GiveDoubleNew(fs, ino, k);
      }
  }

  lemma HolderBlocksHas(fs: Fs, ino: Inode, second: set<nat>, b: nat)
    ensures b in HolderBlocks(fs, ino, second) <==> exists h :: HolderIn(fs, ino, second, h) && HolderAt(fs, ino, h) == b
  {
    if b in HolderBlocks(fs, ino, second) {
      if Word(ino, SINGLY) != 0 && b == Word(ino, SINGLY) {
        assert HolderIn(fs, ino, second, Single) && HolderAt(fs, ino, Single) == b;
      } else if Word(ino, DOUBLY) != 0 && b == Word(ino, DOUBLY) {
        assert HolderIn(fs, ino, second, Double) && HolderAt(fs, ino, Double) == b;
      } else {
        var k :| k in second && k < PerBlock(fs.geo) && b == PtrIn(fs.vol, Word(ino, DOUBLY), k);
        assert HolderIn(fs, ino, second, Second(k)) && HolderAt(fs, ino, Second(k)) == b;
      }
    }
  }

  lemma HolderBlocksGrow(fs: Fs, ino: Inode, second: set<nat>, fs': Fs, ino': Inode, second': set<nat>)
    requires SameHolders(fs, ino, second, fs', ino', second')
    ensures HolderBlocks(fs, ino, second) <= HolderBlocks(fs', ino', second')
  {
    forall b | b in HolderBlocks(fs, ino, second) ensures b in HolderBlocks(fs', ino', second') {
      HolderBlocksHas(fs, ino, second, b);
      var h :| HolderIn(fs, ino, second, h) && HolderAt(fs, ino, h) == b;
      HolderBlocksHas(fs', ino', second', b);
    }
  }

  /** The last two steps of growth: the store and, for a direct pointer, the flush. */
  lemma StoreGrown(fs: Fs, ino: Inode, n: nat, v: u32)
    requires FileOk(fs, ino, SecondOf(ino), n) && n < MaxIndex(fs.geo)
    requires SlotIn(fs, ino, SecondOf(ino), Decode(fs.geo, n)) && Fresh(fs, ino, SecondOf(ino), n, v)
    ensures var slot := Decode(fs.geo, n);
      var (fs', ino') := PutSlot(fs, ino, slot, v);
      && Ok(fs') && InodeOk(fs'.geo, ino')
      && var fs'' := if slot.InInode? then PutInode(fs', ino') else fs';
         && FileOk(fs'', ino', SecondOf(ino'), n + 1) && SameAddrs(fs, ino, fs'', ino', n) && GetAddr(fs'', ino', n) == v
         && SameHolders(fs, ino, SecondOf(ino), fs'', ino', SecondOf(ino'))
         && HoldersNew(fs, ino, SecondOf(ino), fs'', ino', SecondOf(ino'))
         && Keeps(fs, fs'', HolderBlocks(fs, ino, SecondOf(ino))) && Recorded(fs, ino, fs'', ino')
  {
    hide Recorded, BitMeans, Counted, GroupPlaced, FreeBit, BlockOk, AddrsApart, GetAddr, HolderBlocks, PutInode, MaxIndex, HoldersApart;
    var second, slot := SecondOf(ino), Decode(fs.geo, n);
    var (fs', ino') := PutSlot(fs, ino, slot, v);
    AddBlock(fs, ino, second, n, v);
    PutSlotKeeps(fs, ino, second, slot, v);
    PutSlotRecords(fs, ino, second, slot, v);
    forall h | HolderIn(fs, ino, second, h)
      ensures HolderIn(fs', ino', second, h) && HolderAt(fs', ino', h) == HolderAt(fs, ino, h)
    {
      PutSlotHolder(fs, ino, second, slot, v, h);
    }
    if slot.InInode? {
      FlushKeeps(fs', ino');
      FrameCarries(fs', PutInode(fs', ino'), ino', second, n + 1, 0);
      FileFrame(fs', PutInode(fs', ino'), ino', second, n + 1);
    }
  }

  /** The first two steps of growth: a new block, and the pointer blocks on the way to its slot. */
  lemma GrowPrepared(fs: Fs, ino: Inode, n: nat, fs2: Fs, ino2: Inode)
    requires FileOk(fs, ino, SecondOf(ino), n) && n < GrowthLimit(fs.geo) && n < MaxIndex(fs.geo)
    requires AllocBlock(fs.geo, fs.vol, fs.lay).Some?
    requires var fs1 := fs.(vol := AllocBlock(fs.geo, fs.vol, fs.lay).value.0);
      Ok(fs1) && Prepare(fs1, ino, Decode(fs.geo, n)) == Some((fs2, ino2))
    ensures var nr := AllocBlock(fs.geo, fs.vol, fs.lay).value.1;
      && Carries(fs, ino, SecondOf(ino), fs2, ino2, SecondOf(ino2), n, nr) && Keeps(fs, fs2, {})
      && SlotIn(fs2, ino2, SecondOf(ino2), Decode(fs.geo, n))
      && 0 < nr < 0x1_0000_0000 && IsFree(fs.geo, fs.vol, fs.lay, nr)
      && HoldersNew(fs, ino, SecondOf(ino), fs2, ino2, SecondOf(ino2)) && Recorded(fs, ino, fs2, ino2)
  {
    hide Recorded;
    var second, slot := SecondOf(ino), Decode(fs.geo, n);
    var (vol1, nr) := AllocBlock(fs.geo, fs.vol, fs.lay).value;
    AllocCarries(fs, ino, second, n, 0);
    var fs1 := fs.(vol := vol1);
    assert Carries(fs, ino, second, fs1, ino, second, n, nr);
    GrowReady(fs1, ino, n);
    DecodeEncode(fs.geo, n);
    PrepareOk(fs1, ino, second, n, slot, nr);
    PrepareSecond(fs1, ino, slot);
    PrepareNew(fs1, ino, second, slot);
    AllocRecords(fs, ino);
    PrepareRecords(fs1, ino, slot);
    RecordedTransitive(fs, ino, fs1, ino, fs2, ino2);
    SameInodeNew(fs, fs1, ino, second);
    HoldersNewTransitive(fs, ino, second, fs1, ino, second, fs2, ino2, SecondOf(ino2), {});
    KeepsTransitive(fs, fs1, fs2, {});
    CarriesTransitive(fs, ino, second, fs1, ino, second, fs2, ino2, SecondOf(ino2), n, nr);
  }

  lemma SameInodeNew(fs: Fs, fs': Fs, ino: Inode, second: set<nat>)
    requires Ok(fs) && fs'.geo == fs.geo
    ensures HoldersNew(fs, ino, second, fs', ino, second)
  {
    forall h | HolderIn(fs', ino, second, h) ensures HolderWasFree(fs, ino, second, fs', ino, h) {
    }
  }

  lemma GrownBySteps(fs: Fs, ino: Inode, n: nat, nr: nat, fs2: Fs, ino2: Inode, fs': Fs, ino': Inode)
    requires Carries(fs, ino, SecondOf(ino), fs2, ino2, SecondOf(ino2), n, nr) && Keeps(fs, fs2, {})
    requires IsFree(fs.geo, fs.vol, fs.lay, nr) && n < MaxIndex(fs.geo)
    requires FileOk(fs', ino', SecondOf(ino'), n + 1) && SameAddrs(fs2, ino2, fs', ino', n) && GetAddr(fs', ino', n) == nr
    requires SameHolders(fs2, ino2, SecondOf(ino2), fs', ino', SecondOf(ino'))
    requires HoldersNew(fs, ino, SecondOf(ino), fs2, ino2, SecondOf(ino2))
    requires HoldersNew(fs2, ino2, SecondOf(ino2), fs', ino', SecondOf(ino'))
    requires Keeps(fs2, fs', HolderBlocks(fs2, ino2, SecondOf(ino2)))
    requires Recorded(fs, ino, fs2, ino2) && Recorded(fs2, ino2, fs', ino')
    ensures Grown(fs, ino, n, fs', ino', n + 1)
  {
    hide Recorded, BitMeans, Counted, GroupPlaced, FreeBit, HoldersOk, BlockOk, AddrsApart, GetAddr, HolderBlocks;
    RecordedTransitive(fs, ino, fs2, ino2, fs', ino');
    HoldersNewTransitive(fs, ino, SecondOf(ino), fs2, ino2, SecondOf(ino2), fs', ino', SecondOf(ino'), {});
    HolderBlocksGrow(fs2, ino2, SecondOf(ino2), fs', ino', SecondOf(ino'));
    SameSlotsAddrs(fs, ino, SecondOf(ino), fs2, ino2, SecondOf(ino2), n);
  }

  /** One block more, within the growth limit. */
  lemma GrowOk(fs: Fs, ino: Inode, n: nat)
    requires FileOk(fs, ino, SecondOf(ino), n) && n < GrowthLimit(fs.geo) && Grow(fs, ino, n).Some?
    ensures var (fs', ino') := Grow(fs, ino, n).value; Grown(fs, ino, n, fs', ino', n + 1)
  {
    GrowReady(fs, ino, n);
    DecodeEncode(fs.geo, n);
    AllocKeeps(fs);
    var (vol1, nr) := AllocBlock(fs.geo, fs.vol, fs.lay).value;
    var (fs2, ino2) := Prepare(fs.(vol := vol1), ino, Decode(fs.geo, n)).value;
    var (fs', ino') := Grow(fs, ino, n).value;
    GrowPrepared(fs, ino, n, fs2, ino2);
    StoreGrown(fs2, ino2, n, nr);
    GrownBySteps(fs, ino, n, nr, fs2, ino2, fs', ino');
  }

  lemma PrepareSecond(fs: Fs, ino: Inode, slot: Slot)
    requires Ok(fs) && InodeOk(fs.geo, ino) && Prepare(fs, ino, slot).Some? && (slot.InSecond? ==> slot.k == 0)
    ensures Prepared(ino, SecondOf(ino), slot) == SecondOf(Prepare(fs, ino, slot).value.1)
  {
    AllocBlockIff(fs.geo, fs.vol, fs.lay);
  }

  lemma GrownTransitive(fs: Fs, ino: Inode, n: nat, fs1: Fs, ino1: Inode, m: nat, fs2: Fs, ino2: Inode, l: nat)
    requires Grown(fs, ino, n, fs1, ino1, m) && Grown(fs1, ino1, m, fs2, ino2, l)
    ensures Grown(fs, ino, n, fs2, ino2, l)
  {
    hide Recorded, BitMeans, Counted, GroupPlaced, FreeBit, HoldersOk, BlockOk, AddrsApart, GetAddr, HolderBlocks;
    RecordedTransitive(fs, ino, fs1, ino1, fs2, ino2);
    HolderBlocksGrow(fs1, ino1, SecondOf(ino1), fs2, ino2, SecondOf(ino2));
    HoldersNewTransitive(fs, ino, SecondOf(ino), fs1, ino1, SecondOf(ino1), fs2, ino2, SecondOf(ino2),
                         HolderBlocks(fs1, ino1, SecondOf(ino1)));
    forall j | n <= j < l ensures IsFree(fs.geo, fs.vol, fs.lay, GetAddr(fs2, ino2, j)) {
      if j < m {
        assert GetAddr(fs2, ino2, j) == GetAddr(fs1, ino1, j);
      }
    }
  }

  // -------- resize --------

  /** The growth loop of `resize`, from `n` blocks to `m`. */
  ghost function GrowTo(fs: Fs, ino: Inode, n: nat, m: nat): (r: Option<(Fs, Inode)>)
    requires FileOk(fs, ino, SecondOf(ino), n) && m <= GrowthLimit(fs.geo)
    ensures r.Some? ==> Grown(fs, ino, n, r.value.0, r.value.1, Most(n, m))
    decreases m - n
  {
    if n >= m then
      KeepsItself(fs, ino, n);
      Some((fs, ino))
    else
      hide BitMeans, Counted, GroupPlaced, FreeBit, HoldersOk, BlockOk, AddrsApart;
      match Grow(fs, ino, n)
      case None => None
      case Some((fs1, ino1)) =>
        GrowOk(fs, ino, n);
        var r := GrowTo(fs1, ino1, n + 1, m);
        (if r.Some? then GrownTransitive(fs, ino, n, fs1, ino1, n + 1, r.value.0, r.value.1, m); r else r)
  }

  lemma KeepsItself(fs: Fs, ino: Inode, n: nat)
    requires FileOk(fs, ino, SecondOf(ino), n)
    ensures Grown(fs, ino, n, fs, ino, n)
  {
    hide BitMeans, Counted, GroupPlaced, FreeBit, HoldersOk, BlockOk, AddrsApart;
    KeepsSelf(fs);
    KeepsMore(fs, fs, HolderBlocks(fs, ino, SecondOf(ino)));
    SameInodeNew(fs, fs, ino, SecondOf(ino));
    RecordedSelf(fs, ino);
  }

  function BlockCount(geo: Geometry, size: nat): nat
    requires geo.blockSize > 0
  {
    DivCeil(size, geo.blockSize)
  }

  /** The inode with its size and sector count rewritten, both truncated to 32 bits. */
  function Sized32(geo: Geometry, ino: Inode, newSize: nat): Inode
    requires geo.blockSize > 0
  {
    SetWord(SetWord(ino, SIZE, newSize % 0x1_0000_0000),
            SECTORS_USED, Quot(BlockCount(geo, newSize) * geo.blockSize, 512) % 0x1_0000_0000)
  }

  /** The size is recorded modulo 2^32, and the sectors are those of the file's blocks while their number fits 32 bits. */
  lemma SizesRecorded(geo: Geometry, ino: Inode, newSize: nat)
    requires GeoOk(geo)
    ensures var ino' := Sized32(geo, ino, newSize);
      && Word(ino', SIZE) == newSize % 0x1_0000_0000
      && (BlockCount(geo, newSize) * geo.blockSize < 0x200_0000_0000 ==>
            Word(ino', SECTORS_USED) * 512 == BlockCount(geo, newSize) * geo.blockSize)
      && (forall w :: 0 <= w < 32 && w != 1 && w != 7 ==> Word(ino', w) == Word(ino, w))
  {
    hide BlockCount, Word, Quot;
    WholeSectors(BlockCount(geo, newSize), geo.blockSize);
  }

  lemma WholeSectors(m: nat, size: nat)
    requires size % 1024 == 0
    ensures m * size >= 0
    ensures m * size < 0x200_0000_0000 ==> Quot(m * size, 512) % 0x1_0000_0000 * 512 == m * size
  {
    var q := size / 1024;
    var x := m * q;
    assert size == 1024 * q;
    assert m * size == 1024 * x;
    DivModUnique(1024 * x, 512, 2 * x, 0);
  }

  ghost function Resize(fs: Fs, ino: Inode, newSize: nat): (r: Option<(Fs, Inode)>)
    requires GeoOk(fs.geo) && FileOk(fs, ino, SecondOf(ino), BlockCount(fs.geo, Word(ino, SIZE)))
    requires BlockCount(fs.geo, newSize) <= GrowthLimit(fs.geo)
  {
    var n, m := BlockCount(fs.geo, Word(ino, SIZE)), BlockCount(fs.geo, newSize);
    if newSize == Word(ino, SIZE) || m == n then Some((fs, ino))
    else
      match GrowTo(fs, ino, n, m)
      case None => None
      case Some((fs1, ino1)) => Some((PutInode(fs1, Sized32(fs.geo, ino1, newSize)), Sized32(fs.geo, ino1, newSize)))
  }

  lemma Sized32Grown(fs: Fs, ino: Inode, n: nat, newSize: nat)
    requires FileOk(fs, ino, SecondOf(ino), n)
    ensures var ino' := Sized32(fs.geo, ino, newSize);
      && Word(ino', SIZE) == newSize % 0x1_0000_0000 && InodeOk(fs.geo, ino')
      && Grown(fs, ino, n, PutInode(fs, ino'), ino', n)
  {
    var second, ino' := SecondOf(ino), Sized32(fs.geo, ino, newSize);
    hide Recorded;
    SameTree(fs, ino, ino', second, n);
    FlushRecords(fs, ino, ino');
    FlushKeeps(fs, ino');
    FrameCarries(fs, PutInode(fs, ino'), ino', second, n, 0);
    FileFrame(fs, PutInode(fs, ino'), ino', second, n);
  }

  ghost predicate SamePointers(ino: Inode, ino': Inode) {
    && Word(ino', NUMBER) == Word(ino, NUMBER)
    && Word(ino', SINGLY) == Word(ino, SINGLY) && Word(ino', DOUBLY) == Word(ino, DOUBLY)
    && forall w :: 0 <= w < 12 ==> Direct(ino', w) == Direct(ino, w)
  }

  lemma SameHoldersOk(fs: Fs, ino: Inode, ino': Inode, second: set<nat>)
    requires Ok(fs) && HoldersOk(fs, ino, second) && SamePointers(ino, ino')
    ensures HoldersOk(fs, ino', second)
  {
    forall h ensures HolderIn(fs, ino', second, h) == HolderIn(fs, ino, second, h) {
    }
    forall h ensures HolderAt(fs, ino', h) == HolderAt(fs, ino, h) {
    }
    forall h, h' ensures HoldersApart(fs, ino', second, h, h') {
      assert HoldersApart(fs, ino, second, h, h');
    }
  }

  lemma SameBlockOk(fs: Fs, ino: Inode, ino': Inode, second: set<nat>, j: nat)
    requires Ok(fs) && j < MaxIndex(fs.geo) && BlockOk(fs, ino, second, j) && SamePointers(ino, ino')
    ensures GetAddr(fs, ino', j) == GetAddr(fs, ino, j) && BlockOk(fs, ino', second, j)
  {
    var slot := Decode(fs.geo, j);
    assert Lookup(fs, ino', slot) == Lookup(fs, ino, slot) && SlotIn(fs, ino', second, slot);
    forall h | HolderIn(fs, ino', second, h) ensures HolderAt(fs, ino', h) != GetAddr(fs, ino', j) {
      assert HolderIn(fs, ino, second, h) && HolderAt(fs, ino', h) == HolderAt(fs, ino, h);
    }
  }

  /** Two inodes with the same number and pointers are the same tree. */
  lemma SameTree(fs: Fs, ino: Inode, ino': Inode, second: set<nat>, n: nat)
    requires FileOk(fs, ino, second, n) && SamePointers(ino, ino')
    ensures FileOk(fs, ino', second, n) && SameAddrs(fs, ino, fs, ino', n)
  {
    SameHoldersOk(fs, ino, ino', second);
    forall j | 0 <= j < n ensures BlockOk(fs, ino', second, j) && GetAddr(fs, ino', j) == GetAddr(fs, ino, j) {
      SameBlockOk(fs, ino, ino', second, j);
    }
    forall j, k | 0 <= j < n && 0 <= k < n ensures AddrsApart(fs, ino', j, k) {
      assert AddrsApart(fs, ino, j, k);
    }
  }

  lemma GrownThenSized(fs: Fs, ino: Inode, n: nat, fs1: Fs, ino1: Inode, l: nat, newSize: nat)
    requires Grown(fs, ino, n, fs1, ino1, l)
    ensures var ino' := Sized32(fs.geo, ino1, newSize);
      && InodeOk(fs.geo, ino') && Word(ino', SIZE) == newSize % 0x1_0000_0000
      && Grown(fs, ino, n, PutInode(fs1, ino'), ino', l)
  {
    var ino' := Sized32(fs.geo, ino1, newSize);
    Sized32Grown(fs1, ino1, l, newSize);
    GrownTransitive(fs, ino, n, fs1, ino1, l, PutInode(fs1, ino'), ino', l);
  }

  /**
    `resize` within the growth limit: the file is `Grown` to the new block count (or keeps
    its blocks when it shrinks); the recorded size becomes the new one exactly when the
    block count changes or the size was already that.
   */
  lemma ResizeOk(fs: Fs, ino: Inode, newSize: u32)
    requires GeoOk(fs.geo) && FileOk(fs, ino, SecondOf(ino), BlockCount(fs.geo, Word(ino, SIZE)))
    requires BlockCount(fs.geo, newSize) <= GrowthLimit(fs.geo) && Resize(fs, ino, newSize).Some?
    ensures Resized(fs, ino, newSize, Resize(fs, ino, newSize).value.0, Resize(fs, ino, newSize).value.1)
  {
    hide FsOk, HoldersOk, BlockOk, AddrsApart, GrowthLimit, BlockCount, Sized32, PutInode, Grown, Word;
    var n, m := BlockCount(fs.geo, Word(ino, SIZE)), BlockCount(fs.geo, newSize);
    if newSize != Word(ino, SIZE) && n != m {
      var (fs1, ino1) := GrowTo(fs, ino, n, m).value;
      GrownThenSized(fs, ino, n, fs1, ino1, Most(n, m), newSize);
    } else {
      KeepsItself(fs, ino, n);
      assert Most(n, m) == n;
    }
  }

  function Most(n: nat, m: nat): nat {
    if n <= m then m else n
  }

  ghost predicate Resized(fs: Fs, ino: Inode, newSize: u32, fs': Fs, ino': Inode)
    requires fs.geo.blockSize > 0
  {
    var n, m := BlockCount(fs.geo, Word(ino, SIZE)), BlockCount(fs.geo, newSize);
    && Grown(fs, ino, n, fs', ino', Most(n, m))
    && (Word(ino', SIZE) == newSize <==> newSize == Word(ino, SIZE) || n != m)
    && (n == m ==> fs' == fs && ino' == ino)
  }

  /** Growth changes no used data block but the pointer blocks the file already had. */
  lemma GrownSpares(fs: Fs, ino: Inode, n: nat, fs': Fs, ino': Inode, m: nat, b: nat)
    requires Grown(fs, ino, n, fs', ino', m) && Good(fs, b) && b !in HolderBlocks(fs, ino, SecondOf(ino))
    ensures b < |fs'.vol| && fs'.vol[b] == fs.vol[b]
  {
    hide FsOk, FileOk, HolderBlocks, IsFree;
    if b in HolderBlocks(fs', ino', SecondOf(ino')) {
      HolderBlocksHas(fs', ino', SecondOf(ino'), b);
      var h :| HolderIn(fs', ino', SecondOf(ino'), h) && HolderAt(fs', ino', h) == b;
      assert HolderWasFree(fs, ino, SecondOf(ino), fs', ino', h);
      HolderBlocksHas(fs, ino, SecondOf(ino), b);
      assert false;
    }
  }

  ghost predicate ContentsKept(fs: Fs, fs': Fs, b: nat) {
    b < |fs.vol| == |fs'.vol| && fs'.vol[b] == fs.vol[b]
  }

  /** Growing one file leaves another, none of whose blocks is a pointer block of the first, exactly as it was. */
  lemma OtherFileUntouched(fs: Fs, ino: Inode, n: nat, fs': Fs, ino': Inode, m: nat, other: Inode, second: set<nat>, l: nat)
    requires Grown(fs, ino, n, fs', ino', m) && FileOk(fs, other, second, l)
    requires HolderBlocks(fs, other, second) !! HolderBlocks(fs, ino, SecondOf(ino))
    requires forall j :: 0 <= j < l ==> GetAddr(fs, other, j) as nat !in HolderBlocks(fs, ino, SecondOf(ino))
    ensures FileOk(fs', other, second, l) && SameAddrs(fs, other, fs', other, l)
    ensures forall j :: 0 <= j < l ==> ContentsKept(fs, fs', GetAddr(fs, other, j))
  {
    forall h | HolderIn(fs, other, second, h)
      ensures fs'.vol[HolderAt(fs, other, h)] == fs.vol[HolderAt(fs, other, h)]
    {
      assert Good(fs, HolderAt(fs, other, h));
      HolderBlocksHas(fs, other, second, HolderAt(fs, other, h));
      GrownSpares(fs, ino, n, fs', ino', m, HolderAt(fs, other, h));
    }
    FileFrame(fs, fs', other, second, l);
    forall j | 0 <= j < l ensures ContentsKept(fs, fs', GetAddr(fs, other, j)) {
      assert BlockOk(fs, other, second, j);
      GrownSpares(fs, ino, n, fs', ino', m, GetAddr(fs, other, j));
    }
  }
}
