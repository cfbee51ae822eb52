/** What the operations on inodes leave alone, word by word and byte by byte (src/fs/ext2.rs). */
module Ext2Frames {
  import opened Arith
  import opened Bits
  import opened Options
  import opened Disks
  import opened Ext2Layout
  import opened Ext2Alloc
  import opened Ext2File
  import opened Ext2Space
  import opened Ext2Create

  // -------- the fields of an inode --------

  /** The words of an inode that `resize` may write: size, sectors, and the block pointers but the triply indirect one. */
  predicate Resizable(w: nat) {
    w == 1 || w == 7 || 10 <= w <= 23
  }

  ghost predicate SameFields(ino: Inode, ino': Inode) {
    forall w :: 0 <= w < 32 && !Resizable(w) ==> Word(ino', w) == Word(ino, w)
  }

  /** The one word of the inode that storing an address may write: the direct pointer, or a missing indirect one. */
  predicate SlotWord(ino: Inode, slot: Slot, w: nat) {
    match slot
    case InInode(i) => w == 10 + i
    case InSingly(_) => w == 22 && Word(ino, 22) == 0
    case InSecond(_, _) => w == 23 && Word(ino, 23) == 0
  }

  lemma PrepareFields(fs: Fs, ino: Inode, slot: Slot, w: nat)
    requires Ok(fs) && InodeOk(fs.geo, ino) && Prepare(fs, ino, slot).Some? && w < 32
    ensures var ino' := Prepare(fs, ino, slot).value.1; Word(ino', w) == Word(ino, w) || (!slot.InInode? && SlotWord(ino, slot, w))
  {
    hide FsOk, Ext2Alloc.AllocBlock, PutInode, Word, PutPtr;
    OkFacts(fs);
  }

  lemma OkFacts(fs: Fs)
    requires Ok(fs)
    ensures Placed(fs.geo, fs.vol, fs.lay) && GeoOk(fs.geo)
  {
  }

  lemma SetAddrFields(fs: Fs, ino: Inode, index: nat, v: u32, w: nat)
    requires Ok(fs) && InodeOk(fs.geo, ino) && SetAddr(fs, ino, index, v).Some? && w < 32
    ensures var ino' := SetAddr(fs, ino, index, v).value.1;
      Word(ino', w) == Word(ino, w) || (index < MaxIndex(fs.geo) && SlotWord(ino, Decode(fs.geo, index), w))
  {
    hide FsOk, Ext2Alloc.AllocBlock, PutInode, Word, Decode, PutPtr, Prepare;
    OkFacts(fs);
    if index < MaxIndex(fs.geo) {
      DecodeEncode(fs.geo, index);
      PrepareFields(fs, ino, Decode(fs.geo, index), w);
    }
  }

  lemma GrowFields(fs: Fs, ino: Inode, n: nat)
    requires Ok(fs) && InodeOk(fs.geo, ino) && Grow(fs, ino, n).Some?
    ensures SameFields(ino, Grow(fs, ino, n).value.1)
  {
    hide FsOk, Ext2Alloc.AllocBlock, SetAddr, Word, Decode;
    OkFacts(fs);
    var (vol1, nr) := AllocBlock(fs.geo, fs.vol, fs.lay).value;
    AllocKeeps(fs);
    forall w | 0 <= w < 32 && !Resizable(w) ensures Word(Grow(fs, ino, n).value.1, w) == Word(ino, w) {
      SetAddrFields(fs.(vol := vol1), ino, n, nr, w);
      if n < MaxIndex(fs.geo) {
        DecodeEncode(fs.geo, n);
      }
    }
  }

  lemma {:induction false} GrowToFields(fs: Fs, ino: Inode, n: nat, m: nat)
    requires FileOk(fs, ino, SecondOf(ino), n) && m <= GrowthLimit(fs.geo) && GrowTo(fs, ino, n, m).Some?
    ensures SameFields(ino, GrowTo(fs, ino, n, m).value.1)
    decreases m - n
  {
    hide FsOk, HoldersOk, BlockOk, AddrsApart, Grow, Word, Grown;
    if n < m {
      GrowOk(fs, ino, n);
      GrowFields(fs, ino, n);
      var (fs1, ino1) := Grow(fs, ino, n).value;
      GrownFile(fs, ino, n, fs1, ino1, n + 1);
      GrowToFields(fs1, ino1, n + 1, m);
    }
  }

  /**
    `resize` writes the size, the sectors and the pointers, and no other field. Where the
    block count stays the same it changes nothing; otherwise the size is the new one, in 32
    bits, and the sectors are those of the new block count while they fit 32 bits.
   */
  ghost predicate Rewritten(geo: Geometry, ino: Inode, newSize: nat, ino': Inode)
    requires geo.blockSize > 0
  {
    var n, m := BlockCount(geo, Word(ino, 1)), BlockCount(geo, newSize);
    && SameFields(ino, ino')
    && (n == m ==> ino' == ino)
    && (n != m ==>
          && Word(ino', 1) == newSize % 0x1_0000_0000
          && (m * geo.blockSize < 0x200_0000_0000 ==> Word(ino', 7) * 512 == m * geo.blockSize))
  }

  lemma ResizeFields(fs: Fs, ino: Inode, newSize: nat)
    requires GeoOk(fs.geo) && FileOk(fs, ino, SecondOf(ino), BlockCount(fs.geo, Word(ino, SIZE)))
    requires BlockCount(fs.geo, newSize) <= GrowthLimit(fs.geo) && Resize(fs, ino, newSize).Some?
    ensures var (fs', ino') := Resize(fs, ino, newSize).value;
      Rewritten(fs.geo, ino, newSize, ino') && (BlockCount(fs.geo, newSize) == BlockCount(fs.geo, Word(ino, 1)) ==> fs' == fs)
  {
    hide FsOk, HoldersOk, BlockOk, AddrsApart, GrowthLimit, BlockCount, PutInode, Grown, Word, Sized32;
    var n, m := BlockCount(fs.geo, Word(ino, SIZE)), BlockCount(fs.geo, newSize);
    if n != m {
      GrowToFields(fs, ino, n, m);
      SizedFields(fs.geo, GrowTo(fs, ino, n, m).value.1, newSize);
    }
  }

  lemma SizedFields(geo: Geometry, ino: Inode, newSize: nat)
    requires GeoOk(geo)
    ensures var ino' := Sized32(geo, ino, newSize);
      && SameFields(ino, ino') && Word(ino', 1) == newSize % 0x1_0000_0000
      && (BlockCount(geo, newSize) * geo.blockSize < 0x200_0000_0000 ==> Word(ino', 7) * 512 == BlockCount(geo, newSize) * geo.blockSize)
  {
    hide Word, BlockCount;
    SizesRecorded(geo, ino, newSize);
  }

  // -------- the bytes of the volume --------

  /** Byte `x` of block `b` belongs to the record of inode `nr`. */
  predicate InRecord(geo: Geometry, lay: Layout, nr: nat, b: nat, x: nat) {
    && geo.blockSize > 0 && IsNumber(geo, nr) && GetBlockGroup(geo, nr) < |lay.inodeTables|
    && var i := GetTableIndex(geo, nr);
       && b == lay.inodeTables[GetBlockGroup(geo, nr)] + RecordBlock(geo, i)
       && RecordOffset(geo, i) <= x < RecordOffset(geo, i) + 128
  }

  /** It belongs to some group's counter of free blocks. */
  ghost predicate InSomeCounter(geo: Geometry, b: nat, x: nat)
    requires geo.blockSize > 0
  {
    exists g: nat :: g < geo.groups && InCounter(geo, OfBlocks, g, b, x)
  }

  /** What an operation that takes blocks for inode `nr` may change: block bitmaps and counters, the inode's record, and the given words. */
  ghost predicate MayChange(fs: Fs, nr: nat, words: set<(nat, nat)>, b: nat, x: nat)
    requires fs.geo.blockSize > 0 && |fs.lay.roles| == |fs.vol| && b < |fs.vol|
  {
    || (fs.lay.roles[b].BitmapOf? && fs.lay.roles[b].k.OfBlocks?)
    || InSomeCounter(fs.geo, b, x) || InRecord(fs.geo, fs.lay, nr, b, x) || (b, x / 4) in words
  }

  ghost predicate Framed(fs: Fs, fs': Fs, nr: nat, words: set<(nat, nat)>) {
    && Ok(fs) && Ok(fs') && fs'.geo == fs.geo && fs'.lay == fs.lay && |fs'.vol| == |fs.vol|
    && forall b, x :: 0 <= b < |fs.vol| && 0 <= x < fs.geo.blockSize && !MayChange(fs, nr, words, b, x) ==> fs'.vol[b][x] == fs.vol[b][x]
  }

  lemma FramedTransitive(fs: Fs, fs1: Fs, fs2: Fs, nr: nat, words: set<(nat, nat)>, words1: set<(nat, nat)>, all: set<(nat, nat)>)
    requires Framed(fs, fs1, nr, words) && Framed(fs1, fs2, nr, words1) && words <= all && words1 <= all
    ensures Framed(fs, fs2, nr, all)
  {
    hide FsOk, InSomeCounter, InRecord;
    OkFacts(fs);
    OkFacts(fs1);
    OkFacts(fs2);
    forall b, x | 0 <= b < |fs.vol| && 0 <= x < fs.geo.blockSize && !MayChange(fs, nr, all, b, x) ensures fs2.vol[b][x] == fs.vol[b][x] {
      assert !MayChange(fs, nr, words, b, x) && !MayChange(fs1, nr, words1, b, x);
    }
  }

  lemma FramedSelf(fs: Fs, nr: nat)
    requires Ok(fs)
    ensures Framed(fs, fs, nr, {})
  {
    hide FsOk, InSomeCounter, InRecord;
    OkFacts(fs);
  }

  lemma AllocFramed(fs: Fs, nr: nat)
    requires Ok(fs) && AllocBlock(fs.geo, fs.vol, fs.lay).Some?
    ensures Framed(fs, fs.(vol := AllocBlock(fs.geo, fs.vol, fs.lay).value.0), nr, {})
  {
    hide BitMeans, Counted, FreeBit, FsTake, After, InRecord, InCounter;
    AllocKeeps(fs);
    FsTakeIff(fs.geo, fs.vol, fs.lay, OfBlocks, 0);
    var (vol', g, i) := FsTake(fs.geo, fs.vol, fs.lay, OfBlocks, 0).value;
    var t := Taking(fs.geo, fs.vol, fs.lay, OfBlocks, g, i);
    TakingApart(t);
    forall b, x | 0 <= b < |fs.vol| && 0 <= x < fs.geo.blockSize && !MayChange(fs, nr, {}, b, x)
      ensures vol'[b][x] == fs.vol[b][x]
    {
      AfterBytes(t, b, x);
      assert !InCounter(fs.geo, OfBlocks, g, b, x);
    }
  }

  /** `flush` changes the bytes of the inode's record alone. */
  lemma RecordAlone(fs: Fs, ino: Inode, b: nat, x: nat)
    requires Ok(fs) && InodeOk(fs.geo, ino) && b < |fs.vol| && x < fs.geo.blockSize
    ensures |PutInode(fs, ino).vol| == |fs.vol| && |PutInode(fs, ino).vol[b]| == |fs.vol[b]| == fs.geo.blockSize
    ensures PutInode(fs, ino).vol[b][x] == fs.vol[b][x] || InRecord(fs.geo, fs.lay, Word(ino, NUMBER), b, x)
  {
    hide BitMeans, Counted, FreeBit, Word;
    InodeBlockRole(fs, Word(ino, NUMBER));
    assert GroupPlaced(fs.geo, fs.vol, fs.lay, GetBlockGroup(fs.geo, Word(ino, NUMBER)));
  }

  /** `get` reads the 128 bytes of the record, and fills in the number at byte 36. */
  lemma GetInodeBytes(fs: Fs, nr: nat, x: nat)
    requires Ok(fs) && IsNumber(fs.geo, nr) && x < 128
    ensures var g, at := GetBlockGroup(fs.geo, nr), GetTableIndex(fs.geo, nr) * 128;
      && g < |fs.lay.inodeTables| && fs.lay.inodeTables[g] + at / fs.geo.blockSize < |fs.vol| && fs.geo.blockSize > 0
      && var block := fs.vol[fs.lay.inodeTables[g] + at / fs.geo.blockSize];
         && at % fs.geo.blockSize + 128 <= |block| && U32(GetInode(fs, nr), 36) == nr
         && (36 <= x < 40 || GetInode(fs, nr)[x] == block[at % fs.geo.blockSize + x])
  {
    hide BitMeans, Counted, FreeBit, SetWord;
    InodeBlockRole(fs, nr);
    assert GroupPlaced(fs.geo, fs.vol, fs.lay, GetBlockGroup(fs.geo, nr));
    var off := RecordOffset(fs.geo, GetTableIndex(fs.geo, nr));
    var raw := fs.vol[InodeBlock(fs, nr)][off..off + 128];
    NumberBytes(raw, nr, x);
  }

  lemma NumberBytes(raw: Inode, nr: u32, x: nat)
    requires x < 128
    ensures Word(SetWord(raw, NUMBER, nr), 9) == nr && (36 <= x < 40 || SetWord(raw, NUMBER, nr)[x] == raw[x])
  {
  }

  lemma PutInodeFramed(fs: Fs, ino: Inode)
    requires Ok(fs) && InodeOk(fs.geo, ino)
    ensures Framed(fs, PutInode(fs, ino), Word(ino, NUMBER), {})
  {
    hide BitMeans, Counted, FreeBit, InSomeCounter, Word;
    var nr, fs' := Word(ino, NUMBER), PutInode(fs, ino);
    PutInodeOk(fs, ino);
    PutInodeGeo(fs, ino);
    forall b, x | 0 <= b < |fs.vol| && 0 <= x < fs.geo.blockSize && !MayChange(fs, nr, {}, b, x)
      ensures fs'.vol[b][x] == fs.vol[b][x]
    {
      RecordAlone(fs, ino, b, x);
    }
  }

  lemma PutPtrFramed(fs: Fs, c: nat, r: nat, v: u32, nr: nat)
    requires Ok(fs) && Good(fs, c) && r < PerBlock(fs.geo)
    ensures Framed(fs, fs.(vol := PutPtr(fs.vol, c, r, v)), nr, {(c, r)})
  {
    hide FsOk, IsFree, InSomeCounter, InRecord, PutPtr;
    OkFacts(fs);
    PutPtrKeeps(fs, c, r, v);
    var vol' := PutPtr(fs.vol, c, r, v);
    forall b, x | 0 <= b < |fs.vol| && 0 <= x < fs.geo.blockSize && !MayChange(fs, nr, {(c, r)}, b, x)
      ensures |vol'[b]| == fs.geo.blockSize && vol'[b][x] == fs.vol[b][x]
    {
      PutPtrBytes(fs.geo, fs.vol, c, r, v, b, x);
    }
  }

  lemma PutPtrBytes(geo: Geometry, vol: Volume, c: nat, r: nat, v: u32, b: nat, x: nat)
    requires Sized(geo, vol) && b < |vol| && x < geo.blockSize
    ensures |PutPtr(vol, c, r, v)| == |vol| && |PutPtr(vol, c, r, v)[b]| == geo.blockSize
    ensures PutPtr(vol, c, r, v)[b][x] == vol[b][x] || (b == c && x / 4 == r)
  {
  }

  /** The words of pointer blocks that storing an address writes: the slot, and the new entry of a new doubly indirect block. */
  ghost function SlotWords(ino: Inode, slot: Slot, fs': Fs, ino': Inode): set<(nat, nat)> {
    match slot
    case InInode(_) => {}
    case InSingly(r) => {(Word(ino', 22) as nat, r)}
    case InSecond(k, r) =>
      (if Word(ino, 23) == 0 then {(Word(ino', 23) as nat, k)} else {}) + {(PtrIn(fs'.vol, Word(ino', 23), k) as nat, r)}
  }

  ghost function NewEntry(ino: Inode, slot: Slot, ino': Inode): set<(nat, nat)> {
    if slot.InSecond? && Word(ino, 23) == 0 then {(Word(ino', 23) as nat, slot.k)} else {}
  }

  lemma GiveSingleFramed(fs: Fs, ino: Inode)
    requires Ok(fs) && InodeOk(fs.geo, ino) && GiveSingle(fs, ino).Some?
    ensures Framed(fs, GiveSingle(fs, ino).value.0, Word(ino, NUMBER), {})
  {
    hide FsOk, Ext2Alloc.AllocBlock, PutInode, Word, Framed;
    OkFacts(fs);
    var (vol1, s) := AllocBlock(fs.geo, fs.vol, fs.lay).value;
    AllocKeeps(fs);
    var fs1, ino1 := fs.(vol := vol1), SetWord(ino, SINGLY, s);
    AllocFramed(fs, Word(ino, NUMBER));
    PutInodeFramed(fs1, ino1);
    FramedTransitive(fs, fs1, PutInode(fs1, ino1), Word(ino, NUMBER), {}, {}, {});
  }

  lemma GiveDoubleFramed(fs: Fs, ino: Inode, k: nat)
    requires Ok(fs) && InodeOk(fs.geo, ino) && GiveDouble(fs, ino, k).Some? && k < PerBlock(fs.geo)
    ensures Framed(fs, GiveDouble(fs, ino, k).value.0, Word(ino, NUMBER), {(Word(GiveDouble(fs, ino, k).value.1, DOUBLY) as nat, k)})
  {
    hide FsOk, Ext2Alloc.AllocBlock, PutInode, Word, Framed, PutPtr, IsFree, Keeps;
    OkFacts(fs);
    var nr := Word(ino, NUMBER);
    var (vol1, d) := AllocBlock(fs.geo, fs.vol, fs.lay).value;
    AllocKeeps(fs);
    var fs1, ino1 := fs.(vol := vol1), SetWord(ino, DOUBLY, d);
    KeptOk(fs, fs1);
    AllocFramed(fs, nr);
    FlushKeeps(fs1, ino1);
    PutInodeFramed(fs1, ino1);
    var fs2 := PutInode(fs1, ino1);
    KeptOk(fs1, fs2);
    FramedTransitive(fs, fs1, fs2, nr, {}, {}, {});
    SecondFramed(fs1, fs2, d, k, nr);
    FramedTransitive(fs, fs2, GiveDouble(fs, ino, k).value.0, nr, {}, {(d, k)}, {(d, k)});
  }

  lemma KeptOk(fs: Fs, fs': Fs)
    requires Keeps(fs, fs', {})
    ensures Ok(fs') && fs'.geo == fs.geo && Placed(fs'.geo, fs'.vol, fs'.lay)
  {
  }

  /** The second-level block, and its number stored in the doubly indirect one. */
  lemma SecondFramed(fs1: Fs, fs: Fs, d: nat, k: nat, nr: nat)
    requires Keeps(fs1, fs, {}) && Good(fs1, d) && k < PerBlock(fs.geo) && Ok(fs) && AllocBlock(fs.geo, fs.vol, fs.lay).Some?
    ensures var (vol', e) := AllocBlock(fs.geo, fs.vol, fs.lay).value;
      e < 0x1_0000_0000 && Framed(fs, fs.(vol := PutPtr(vol', d, k, e)), nr, {(d, k)})
  {
    hide BitMeans, Counted, GroupPlaced, FreeBit, Ext2Alloc.AllocBlock, Framed, PutPtr;
    var (vol', e) := AllocBlock(fs.geo, fs.vol, fs.lay).value;
    AllocKeeps(fs);
    AllocFramed(fs, nr);
    var fs' := fs.(vol := vol');
    StaysGood(fs1, fs, d);
    StaysGood(fs, fs', d);
    PutPtrFramed(fs', d, k, e, nr);
    FramedTransitive(fs, fs', fs'.(vol := PutPtr(vol', d, k, e)), nr, {}, {(d, k)}, {(d, k)});
  }

  lemma StaysGood(fs: Fs, fs': Fs, b: nat)
    requires Keeps(fs, fs', {}) && Good(fs, b)
    ensures Good(fs', b)
  {
    hide BitMeans, Counted, GroupPlaced, FreeBit;
  }

  lemma PrepareFramed(fs: Fs, ino: Inode, slot: Slot)
    requires Ok(fs) && InodeOk(fs.geo, ino) && SlotOk(fs.geo, slot) && Prepare(fs, ino, slot).Some?
    ensures var (fs', ino') := Prepare(fs, ino, slot).value; Framed(fs, fs', Word(ino, NUMBER), NewEntry(ino, slot, ino'))
  {
    hide FsOk, GiveSingle, GiveDouble, Word, Framed;
    FramedSelf(fs, Word(ino, NUMBER));
    match slot
    case InInode(_) =>
    case InSingly(_) =>
      if Word(ino, SINGLY) == 0 {
        GiveSingleFramed(fs, ino);
      }
    case InSecond(k, _) =>
      if Word(ino, DOUBLY) == 0 {
        GiveDoubleFramed(fs, ino, k);
      }
  }

  /** `set_block_address` changes nothing on the volume but block bitmaps and counters, the inode's record, and the words it stores. */
  lemma SetAddrFramed(fs: Fs, ino: Inode, second: set<nat>, index: nat, v: u32)
    requires Ok(fs) && InodeOk(fs.geo, ino) && HoldersOk(fs, ino, second) && index < MaxIndex(fs.geo)
    requires Ready(ino, second, Decode(fs.geo, index)) && SetAddr(fs, ino, index, v).Some?
    ensures var (fs', ino') := SetAddr(fs, ino, index, v).value;
      Framed(fs, fs', Word(ino, NUMBER), SlotWords(ino, Decode(fs.geo, index), fs', ino'))
  {
    hide BitMeans, Counted, GroupPlaced, FreeBit, Ext2Alloc.AllocBlock, PutInode, Word, Framed, Prepare, PutPtr, Decode;
    DecodeEncode(fs.geo, index);
    var slot, nr := Decode(fs.geo, index), Word(ino, NUMBER);
    var (fs1, ino1) := Prepare(fs, ino, slot).value;
    PrepareFramed(fs, ino, slot);
    PrepareNumber(fs, ino, slot);
    var second1 := Prepared(ino, second, slot);
    PrepareHolders(fs, ino, second, slot);
    var (fs2, ino2) := PutSlot(fs1, ino1, slot, v);
    match slot
    case InInode(w) =>
      PutInodeFramed(fs1, ino2);
      FramedTransitive(fs, fs1, PutInode(fs1, ino2), nr, {}, {}, {});
    case InSingly(r) =>
      assert HolderIn(fs1, ino1, second1, Single) && Good(fs1, HolderAt(fs1, ino1, Single));
      PutPtrFramed(fs1, Word(ino1, SINGLY), r, v, nr);
      FramedTransitive(fs, fs1, fs2, nr, {}, {(Word(ino1, SINGLY) as nat, r)}, SlotWords(ino, slot, fs2, ino2));
    case InSecond(k, r) =>
      assert HolderIn(fs1, ino1, second1, Second(k)) && Good(fs1, HolderAt(fs1, ino1, Second(k)));
      PutPtrFramed(fs1, HolderAt(fs1, ino1, Second(k)), r, v, nr);
      PutSlotHolder(fs1, ino1, second1, slot, v, Second(k));
      FramedTransitive(fs, fs1, fs2, nr, NewEntry(ino, slot, ino1), {(HolderAt(fs1, ino1, Second(k)), r)}, SlotWords(ino, slot, fs2, ino2));
  }

  lemma PrepareNumber(fs: Fs, ino: Inode, slot: Slot)
    requires Ok(fs) && InodeOk(fs.geo, ino) && Prepare(fs, ino, slot).Some?
    ensures Word(Prepare(fs, ino, slot).value.1, NUMBER) == Word(ino, NUMBER)
  {
    hide FsOk, Prepare, Word;
    PrepareFields(fs, ino, slot, NUMBER);
  }

  lemma PrepareHolders(fs: Fs, ino: Inode, second: set<nat>, slot: Slot)
    requires Ok(fs) && InodeOk(fs.geo, ino) && HoldersOk(fs, ino, second) && SlotOk(fs.geo, slot) && Ready(ino, second, slot)
    requires Prepare(fs, ino, slot).Some?
    ensures var (fs', ino') := Prepare(fs, ino, slot).value;
      HoldersOk(fs', ino', Prepared(ino, second, slot)) && SlotIn(fs', ino', Prepared(ino, second, slot), slot)
  {
    hide BitMeans, Counted, GroupPlaced, FreeBit, Prepare;
    PrepareOk(fs, ino, second, 0, slot, 0);
  }

  // -------- growth and resize --------

  /** Every word of the file's pointer blocks. */
  ghost function PointerWords(fs: Fs, ino: Inode): set<(nat, nat)> {
    set b, w | b in HolderBlocks(fs, ino, SecondOf(ino)) && 0 <= w < PerBlock(fs.geo) :: (b, w)
  }

  lemma HolderWords(fs: Fs, ino: Inode, h: Holder, w: nat)
    requires HolderIn(fs, ino, SecondOf(ino), h) && w < PerBlock(fs.geo)
    ensures (HolderAt(fs, ino, h), w) in PointerWords(fs, ino)
  {
    hide HolderBlocks;
    HolderBlocksHas(fs, ino, SecondOf(ino), HolderAt(fs, ino, h));
  }

  lemma PointerWordsGrow(fs: Fs, ino: Inode, n: nat, fs': Fs, ino': Inode, m: nat)
    requires Grown(fs, ino, n, fs', ino', m)
    ensures PointerWords(fs, ino) <= PointerWords(fs', ino')
  {
    hide FsOk, FileOk, HolderBlocks, Keeps, Recorded, HoldersNew;
    forall p | p in PointerWords(fs, ino) ensures p in PointerWords(fs', ino') {
      HolderBlocksHas(fs, ino, SecondOf(ino), p.0);
      var h :| HolderIn(fs, ino, SecondOf(ino), h) && HolderAt(fs, ino, h) == p.0;
      HolderWords(fs', ino', h, p.1);
    }
  }

  /** The slot of a block a file has lies in one of its pointer blocks, or in the inode. */
  lemma SlotHeld(fs: Fs, ino: Inode, n: nat, j: nat)
    requires FileOk(fs, ino, SecondOf(ino), n) && j < n
    ensures j < MaxIndex(fs.geo) && GeoOk(fs.geo) && SlotOk(fs.geo, Decode(fs.geo, j)) && SlotIn(fs, ino, SecondOf(ino), Decode(fs.geo, j))
  {
    hide BitMeans, Counted, GroupPlaced, FreeBit, HoldersOk, AddrsApart;
    assert BlockOk(fs, ino, SecondOf(ino), j);
  }

  lemma SlotWordsHeld(fs: Fs, ino: Inode, slot: Slot, fs': Fs, ino': Inode)
    requires SlotIn(fs', ino', SecondOf(ino'), slot) && (slot.InSecond? ==> slot.k == 0)
    ensures SlotWords(ino, slot, fs', ino') <= PointerWords(fs', ino')
  {
    hide PointerWords;
    match slot
    case InInode(_) =>
    case InSingly(r) => HolderWords(fs', ino', Single, r);
    case InSecond(k, r) =>
      HolderWords(fs', ino', Second(k), r);
      HolderWords(fs', ino', Double, k);
  }

  lemma GrowFramed(fs: Fs, ino: Inode, n: nat)
    requires FileOk(fs, ino, SecondOf(ino), n) && n < GrowthLimit(fs.geo) && Grow(fs, ino, n).Some?
    ensures var (fs', ino') := Grow(fs, ino, n).value; Framed(fs, fs', Word(ino, NUMBER), PointerWords(fs', ino'))
  {
    hide BitMeans, Counted, GroupPlaced, FreeBit, Ext2Alloc.AllocBlock, BlockOk, AddrsApart, SetAddr, Word, Framed, PointerWords, SlotWords, Decode, HolderIn, HolderAt;
    var second := SecondOf(ino);
    var (vol1, nr) := AllocBlock(fs.geo, fs.vol, fs.lay).value;
    var fs1 := fs.(vol := vol1);
    AllocKeeps(fs);
    AllocFramed(fs, Word(ino, NUMBER));
    FileFrame(fs, fs1, ino, second, n);
    GrowReady(fs, ino, n);
    GrowOk(fs, ino, n);
    var (fs', ino') := Grow(fs, ino, n).value;
    GrownFile(fs, ino, n, fs', ino', n + 1);
    SlotHeld(fs', ino', n + 1, n);
    SetAddrFramed(fs1, ino, second, n, nr);
    SlotWordsHeld(fs1, ino, Decode(fs.geo, n), fs', ino');
    FramedTransitive(fs, fs1, fs', Word(ino, NUMBER), {}, SlotWords(ino, Decode(fs.geo, n), fs', ino'), PointerWords(fs', ino'));
  }

  lemma {:induction false} GrowToFramed(fs: Fs, ino: Inode, n: nat, m: nat)
    requires FileOk(fs, ino, SecondOf(ino), n) && m <= GrowthLimit(fs.geo) && GrowTo(fs, ino, n, m).Some?
    ensures var (fs', ino') := GrowTo(fs, ino, n, m).value; Framed(fs, fs', Word(ino, NUMBER), PointerWords(fs', ino'))
    decreases m - n
  {
    hide FsOk, HoldersOk, BlockOk, AddrsApart, Grow, Word, Grown, Framed, PointerWords;
    if n < m {
      GrowOk(fs, ino, n);
      GrowFramed(fs, ino, n);
      GrowFields(fs, ino, n);
      var (fs1, ino1) := Grow(fs, ino, n).value;
      GrownFile(fs, ino, n, fs1, ino1, n + 1);
      GrowToFramed(fs1, ino1, n + 1, m);
      var (fs', ino') := GrowTo(fs, ino, n, m).value;
      PointerWordsGrow(fs1, ino1, n + 1, fs', ino', Most(n + 1, m));
      FramedTransitive(fs, fs1, fs', Word(ino, NUMBER), PointerWords(fs1, ino1), PointerWords(fs', ino'), PointerWords(fs', ino'));
    } else {
      FramedSelf(fs, Word(ino, NUMBER));
      FramedTransitive(fs, fs, fs, Word(ino, NUMBER), {}, {}, PointerWords(fs, ino));
    }
  }

  /** Recording the sizes changes the inode's record alone. */
  lemma SizedFramed(fs: Fs, ino: Inode, n: nat, newSize: nat)
    requires FileOk(fs, ino, SecondOf(ino), n) && GeoOk(fs.geo)
    ensures var ino' := Sized32(fs.geo, ino, newSize);
      && Ok(fs) && InodeOk(fs.geo, ino) && InodeOk(fs.geo, ino') && Framed(fs, PutInode(fs, ino'), Word(ino, NUMBER), {})
      && PointerWords(fs, ino) <= PointerWords(PutInode(fs, ino'), ino')
  {
    hide FsOk, HoldersOk, BlockOk, AddrsApart, PutInode, Grown, Word, Sized32, PointerWords, Framed;
    var ino' := Sized32(fs.geo, ino, newSize);
    Sized32Grown(fs, ino, n, newSize);
    SizedFields(fs.geo, ino, newSize);
    PutInodeFramed(fs, ino');
    PointerWordsGrow(fs, ino, n, PutInode(fs, ino'), ino', n);
  }

  lemma GrownSized(fs: Fs, ino: Inode, fs1: Fs, ino1: Inode, n: nat, newSize: nat)
    requires Framed(fs, fs1, Word(ino, NUMBER), PointerWords(fs1, ino1)) && SameFields(ino, ino1) && GeoOk(fs1.geo)
    requires FileOk(fs1, ino1, SecondOf(ino1), n)
    ensures var ino' := Sized32(fs1.geo, ino1, newSize);
      && Ok(fs1) && InodeOk(fs1.geo, ino') && Framed(fs, PutInode(fs1, ino'), Word(ino, NUMBER), PointerWords(PutInode(fs1, ino'), ino'))
  {
    hide FsOk, FileOk, PutInode, Word, Sized32, PointerWords, Framed;
    SizedFramed(fs1, ino1, n, newSize);
    var ino' := Sized32(fs1.geo, ino1, newSize);
    var fs' := PutInode(fs1, ino');
    FramedTransitive(fs, fs1, fs', Word(ino, NUMBER), PointerWords(fs1, ino1), {}, PointerWords(fs', ino'));
  }

  /** `resize` changes nothing on the volume but block bitmaps and counters, the inode's record, and its pointer blocks. */
  lemma ResizeFramed(fs: Fs, ino: Inode, newSize: nat)
    requires GeoOk(fs.geo) && FileOk(fs, ino, SecondOf(ino), BlockCount(fs.geo, Word(ino, SIZE)))
    requires BlockCount(fs.geo, newSize) <= GrowthLimit(fs.geo) && Resize(fs, ino, newSize).Some?
    ensures var (fs', ino') := Resize(fs, ino, newSize).value; Framed(fs, fs', Word(ino, NUMBER), PointerWords(fs', ino'))
  {
    hide FsOk, HoldersOk, BlockOk, AddrsApart, GrowthLimit, BlockCount, PutInode, Grown, Word, Sized32, Framed, PointerWords, GrowTo;
    var n, m, nr := BlockCount(fs.geo, Word(ino, SIZE)), BlockCount(fs.geo, newSize), Word(ino, NUMBER);
    if n == m {
      FramedSelf(fs, nr);
      FramedTransitive(fs, fs, fs, nr, {}, {}, PointerWords(fs, ino));
    } else {
      var (fs1, ino1) := GrowTo(fs, ino, n, m).value;
      GrowToFramed(fs, ino, n, m);
      GrowToFields(fs, ino, n, m);
      GrownFile(fs, ino, n, fs1, ino1, Most(n, m));
      GrownSized(fs, ino, fs1, ino1, Most(n, m), newSize);
    }
  }

  lemma ResizeWrites(fs: Fs, ino: Inode, newSize: nat)
    requires GeoOk(fs.geo) && FileOk(fs, ino, SecondOf(ino), BlockCount(fs.geo, Word(ino, SIZE)))
    requires BlockCount(fs.geo, newSize) <= GrowthLimit(fs.geo)
    ensures Resize(fs, ino, newSize).Some? ==>
      && var (fs', ino') := Resize(fs, ino, newSize).value;
         Rewritten(fs.geo, ino, newSize, ino') && Framed(fs, fs', Word(ino, NUMBER), PointerWords(fs', ino'))
  {
    hide FsOk, FileOk, GrowthLimit, BlockCount, Resize, Rewritten, Framed, PointerWords;
    if Resize(fs, ino, newSize).Some? {
      ResizeFields(fs, ino, newSize);
      ResizeFramed(fs, ino, newSize);
    }
  }

  // -------- which blocks growth takes --------

  /** `b` is free, and so many free blocks come before it. */
  ghost predicate Rank(fs: Fs, b: nat, k: nat)
    requires Ok(fs)
  {
    b in FreeBlocks(fs) && |FreeBelow(fs, b)| == k
  }

  lemma SingleRank(fs: Fs, fs1: Fs, ino: Inode, k: nat)
    requires TakesLowest(fs, fs1, k) && Ok(fs1) && InodeOk(fs1.geo, ino) && GiveSingle(fs1, ino).Some?
    ensures Rank(fs, Word(GiveSingle(fs1, ino).value.1, SINGLY), k)
  {
    hide FsOk, Ext2Alloc.AllocBlock, PutInode, Word, FreeBlocks, FreeBelow;
    OkFacts(fs1);
    NextIs(fs, fs1, k);
  }

  lemma DoubleRank(fs: Fs, fs1: Fs, ino: Inode, j: nat, k: nat)
    requires TakesLowest(fs, fs1, k) && Ok(fs1) && InodeOk(fs1.geo, ino) && GiveDouble(fs1, ino, j).Some? && j < PerBlock(fs1.geo)
    ensures var (fs', ino') := GiveDouble(fs1, ino, j).value;
      Rank(fs, Word(ino', DOUBLY), k) && Rank(fs, PtrIn(fs'.vol, Word(ino', DOUBLY), j), k + 1)
  {
    hide FsOk, Ext2Alloc.AllocBlock, PutInode, Word, FreeBlocks, FreeBelow, TakesLowest, PutPtr, PtrIn, Keeps, IsFree;
    OkFacts(fs1);
    NextIs(fs, fs1, k);
    AllocCost(fs1);
    var (vol1, d) := AllocBlock(fs1.geo, fs1.vol, fs1.lay).value;
    AllocKeeps(fs1);
    var fs2, ino' := fs1.(vol := vol1), SetWord(ino, DOUBLY, d);
    KeptOk(fs1, fs2);
    TakesTransitive(fs, fs1, fs2, k, 1);
    FlushCost(fs2, ino');
    FlushKeeps(fs2, ino');
    var fs3 := PutInode(fs2, ino');
    KeptOk(fs2, fs3);
    TakesTransitive(fs, fs2, fs3, k + 1, 0);
    NextIs(fs, fs3, k + 1);
    SecondStored(fs2, fs3, d, j);
  }

  lemma SecondStored(fs2: Fs, fs: Fs, d: nat, j: nat)
    requires Keeps(fs2, fs, {}) && Good(fs2, d) && Ok(fs) && j < PerBlock(fs.geo) && AllocBlock(fs.geo, fs.vol, fs.lay).Some?
    ensures var (vol', e) := AllocBlock(fs.geo, fs.vol, fs.lay).value; e < 0x1_0000_0000 && PtrIn(PutPtr(vol', d, j, e), d, j) == e
  {
    hide BitMeans, Counted, GroupPlaced, FreeBit, Ext2Alloc.AllocBlock, PutPtr, PtrIn;
    var (vol', e) := AllocBlock(fs.geo, fs.vol, fs.lay).value;
    AllocKeeps(fs);
    StaysGood(fs2, fs, d);
    StaysGood(fs, fs.(vol := vol'), d);
    PtrOfPut(fs.geo, vol', d, j, e, d, j);
  }

  /**
    A turn of growth takes the lowest free block for the data, the next for a missing
    indirect block, and the one after that for the block under a new doubly indirect one.
   */
  lemma GrowRanks(fs: Fs, ino: Inode, n: nat)
    requires FileOk(fs, ino, SecondOf(ino), n) && n < GrowthLimit(fs.geo) && Grow(fs, ino, n).Some?
    ensures GeoOk(fs.geo) && n < MaxIndex(fs.geo) && Ok(fs)
    ensures var (fs', ino') := Grow(fs, ino, n).value; var slot := Decode(fs.geo, n);
      && fs'.geo == fs.geo && Rank(fs, GetAddr(fs', ino', n), 0)
      && (slot.InSingly? && Word(ino, 22) == 0 ==> Rank(fs, Word(ino', 22), 1))
      && (slot.InSecond? && Word(ino, 23) == 0 ==> Rank(fs, Word(ino', 23), 1) && Rank(fs, PtrIn(fs'.vol, Word(ino', 23), slot.k), 2))
  {
    hide BitMeans, Counted, GroupPlaced, FreeBit, Ext2Alloc.AllocBlock, BlockOk, AddrsApart, Word, Decode, FreeBlocks, FreeBelow,
      TakesLowest, Prepare, PutPtr, PtrIn, HolderIn, HolderAt, SlotIn, GetAddr, PutInode;
    var second := SecondOf(ino);
    var (vol1, nr) := AllocBlock(fs.geo, fs.vol, fs.lay).value;
    var fs1 := fs.(vol := vol1);
    SameFreeCount(fs, fs);
    NextIs(fs, fs, 0);
    AllocCost(fs);
    AllocKeeps(fs);
    FileFrame(fs, fs1, ino, second, n) by { AllocSpares(fs, ino, n); }
    GrowReady(fs, ino, n);
    DecodeEncode(fs.geo, n);
    var slot := Decode(fs.geo, n);
    SetThenGet(fs1, ino, second, n, nr, n);
    StoreRanks(fs, fs1, ino, second, slot, nr);
  }

  lemma AllocSpares(fs: Fs, ino: Inode, n: nat)
    requires FileOk(fs, ino, SecondOf(ino), n) && AllocBlock(fs.geo, fs.vol, fs.lay).Some?
    ensures Spares(fs, fs.(vol := AllocBlock(fs.geo, fs.vol, fs.lay).value.0), ino, SecondOf(ino))
  {
    hide BitMeans, Counted, GroupPlaced, FreeBit, Ext2Alloc.AllocBlock, BlockOk, AddrsApart;
    AllocKeeps(fs);
  }

  lemma StoreRanks(fs: Fs, fs1: Fs, ino: Inode, second: set<nat>, slot: Slot, v: u32)
    requires TakesLowest(fs, fs1, 1) && Ok(fs) && Ok(fs1) && InodeOk(fs1.geo, ino) && HoldersOk(fs1, ino, second) && SlotOk(fs1.geo, slot)
    requires Ready(ino, second, slot) && Prepare(fs1, ino, slot).Some?
    ensures var (fs2, ino2) := Prepare(fs1, ino, slot).value;
      var (fs', ino') := PutSlot(fs2, ino2, slot, v);
      && (slot.InSingly? && Word(ino, 22) == 0 ==> Rank(fs, Word(ino', 22), 1))
      && (slot.InSecond? && Word(ino, 23) == 0 ==> Rank(fs, Word(ino', 23), 1) && Rank(fs, PtrIn(fs'.vol, Word(ino', 23), slot.k), 2))
  {
    hide BitMeans, Counted, GroupPlaced, FreeBit, Word, FreeBlocks, FreeBelow, TakesLowest, GiveSingle, GiveDouble, PutPtr, PtrIn;
    var (fs2, ino2) := Prepare(fs1, ino, slot).value;
    match slot
    case InInode(_) =>
    case InSingly(_) =>
      if Word(ino, SINGLY) == 0 {
        SingleRank(fs, fs1, ino, 1);
      }
    case InSecond(k, _) =>
      if Word(ino, DOUBLY) == 0 {
        DoubleRank(fs, fs1, ino, k, 1);
        PrepareHolders(fs1, ino, second, slot);
        PutSlotHolder(fs2, ino2, Prepared(ino, second, slot), slot, v, Second(k));
      }
  }

  // -------- creation --------

  /**
    Making an inode changes nothing on the volume but the bit of the inode, the counter of
    free inodes of its group, and its record.
   */
  lemma CreateBytes(fs: Fs, b: nat, x: nat)
    requires Ok(fs) && CreateInode(fs).Some? && b < |fs.vol| && x < fs.geo.blockSize
    ensures var (fs', f) := CreateInode(fs).value;
      var nr := Word(f, NUMBER);
      && IsNumber(fs.geo, nr) && |fs'.vol| == |fs.vol| && |fs'.vol[b]| == |fs.vol[b]| == fs.geo.blockSize
      && var g := GetBlockGroup(fs.geo, nr);
         || fs'.vol[b][x] == fs.vol[b][x] || (b == MapAt(fs.lay, OfInodes, g) && x == GetTableIndex(fs.geo, nr) / 8)
         || InCounter(fs.geo, OfInodes, g, b, x) || InRecord(fs.geo, fs.lay, nr, b, x)
  {
    hide BitMeans, Counted, GroupPlaced, FreeBit, FsTake, After, InRecord, InCounter, GetInode, PutInode, NewFile, InSomeCounter;
    FsTakeIff(fs.geo, fs.vol, fs.lay, OfInodes, 0);
    var (vol1, g, i) := FsTake(fs.geo, fs.vol, fs.lay, OfInodes, 0).value;
    var t, fs1, nr := Taking(fs.geo, fs.vol, fs.lay, OfInodes, g, i), fs.(vol := vol1), Number(fs.geo, OfInodes, g, i);
    TakeInode(fs);
    NumberHome(fs, g, i);
    InodeNumber(fs1, nr);
    NewFileFields(GetInode(fs1, nr));
    var f := NewFile(GetInode(fs1, nr));
    AfterBytes(t, b, x);
    RecordAlone(fs1, f, b, x);
  }
}
