/** A freshly formatted volume: what the well-formedness of a file system asks for can be met, and where growth fails. */
module Ext2Example {
  import opened Arith
  import opened Bits
  import opened Bitmaps
  import opened Options
  import opened Disks
  import opened SlabSpec
  import opened Ahci
  import opened Ext2Layout
  import opened Ext2Alloc
  import opened Ext2File
  import opened Ext2Groups
  import opened Ext2Space
  import opened Ext2Gap
  import opened Ext2Chunks
  import opened Ext2Contents
  import opened Ext2Write
  import opened Ext2Create
  import opened Ext2Files

  /** A block size above 1024, and a number of data blocks that one group holds and counts. */
  predicate SizeOk(size: nat, count: nat) {
    size % 1024 == 0 && 1024 < size <= 0x40_0000 && count + 5 <= 8 * size && count < 0x1_0000
  }

  /** One group; block 4 is its inode table, and the data blocks follow. */
  function Geo(size: nat): Geometry {
    Geometry(2048, size, 1, 8 * size, size / 128)
  }

  function RolesOf(count: nat): (r: seq<Role>)
    ensures |r| == 5 + count
    ensures r[0] == Reserved && r[1] == DescTable && r[2] == BitmapOf(OfBlocks, 0) && r[3] == BitmapOf(OfInodes, 0)
    ensures r[4] == InodeTable(0) && forall b :: 5 <= b < 5 + count ==> r[b] == Data
  {
    [Reserved, DescTable, BitmapOf(OfBlocks, 0), BitmapOf(OfInodes, 0), InodeTable(0)] + seq(count, _ => Data)
  }

  function Lay(count: nat): Layout {
    Layout(RolesOf(count), [2], [3], [4])
  }

  function Zeroes(n: nat): (r: seq<byte>)
    ensures |r| == n
  {
    seq(n, _ => 0)
  }

  function Ones(n: nat): (r: seq<byte>)
    ensures |r| == n
  {
    seq(n, _ => 0xff)
  }

  function ClearBit(bytes: seq<byte>, bit: nat): (r: seq<byte>)
    requires bit < 8 * |bytes|
    ensures |r| == |bytes| && BitsOf(r) == BitsOf(bytes)[bit := false]
  {
    OneDigitOneBit(bytes, bit, AndNotByte(bytes[bit / 8], bit % 8));
    bytes[bit / 8 := AndNotByte(bytes[bit / 8], bit % 8)]
  }

  /** All bits set but `count` from `from` on. */
  function ClearRun(size: nat, from: nat, count: nat): (r: seq<byte>)
    requires from + count <= 8 * size
    ensures |r| == size
  {
    if count == 0 then Ones(size) else ClearBit(ClearRun(size, from, count - 1), from + count - 1)
  }

  lemma OnesSet(n: nat)
    ensures BitsOf(Ones(n)) == seq(8 * n, _ => true)
  {
    forall i | 0 <= i < 8 * n ensures BitsOf(Ones(n))[i] {
      assert Pow2(8) == 0x100;
      TestZero(i % 8);
      TestNot(0, 8, i % 8);
    }
  }

  lemma {:induction false} ClearRunBits(size: nat, from: nat, count: nat)
    requires from + count <= 8 * size
    ensures CountSet(BitsOf(ClearRun(size, from, count)), 8 * size) == 8 * size - count
    ensures forall i :: 0 <= i < 8 * size ==> (!BitsOf(ClearRun(size, from, count))[i] <==> from <= i < from + count)
    decreases count
  {
    hide BitsOf, ClearBit, CountSet, Ones;
    if count == 0 {
      OnesCount(size);
    } else {
      ClearRunBits(size, from, count - 1);
      var bytes := ClearRun(size, from, count - 1);
      CountSetUpdate(BitsOf(bytes), 8 * size, from + count - 1, false);
    }
  }

  lemma OnesCount(n: nat)
    ensures CountSet(BitsOf(Ones(n)), 8 * n) == 8 * n && forall i :: 0 <= i < 8 * n ==> BitsOf(Ones(n))[i]
  {
    OnesSet(n);
    FullIffAllSet(BitsOf(Ones(n)), 8 * n);
  }

  function Descriptor(count: u16): (r: seq<byte>)
    ensures |r| == DESC_SIZE
  {
    Le32(2) + Le32(3) + Le32(4) + Le16(count) + Le16(1) + Zeroes(16)
  }

  lemma DescriptorFields(count: u16)
    ensures var d := Descriptor(count);
      U32(d, 0) == 2 && U32(d, 4) == 3 && U32(d, 8) == 4 && U16(d, 12) == count && U16(d, 14) == 1
  {
    Le32RoundTrip(2);
    Le32RoundTrip(3);
    Le32RoundTrip(4);
    Le16RoundTrip(count);
    Le16RoundTrip(1);
  }

  function Metadata(size: nat, count: nat): (r: Volume)
    requires SizeOk(size, count)
    ensures |r| == 5
  {
    [Zeroes(size), Splice(Zeroes(size), 0, Descriptor(count)), ClearRun(size, 5, count), ClearRun(size, 0, 1), Zeroes(size)]
  }

  /** All data blocks and one inode are free; everything but the descriptor and the bitmaps is zero. */
  function Formatted(size: nat, count: nat): (r: Volume)
    requires SizeOk(size, count)
    ensures |r| == 5 + count
    ensures forall b :: 5 <= b < 5 + count ==> r[b] == Zeroes(size)
    ensures r[..5] == Metadata(size, count)
  {
    Metadata(size, count) + seq(count, _ => Zeroes(size))
  }

  lemma FormattedHead(size: nat, count: nat)
    requires SizeOk(size, count)
    ensures var v := Formatted(size, count);
      && v[0] == Zeroes(size) && v[1] == Splice(Zeroes(size), 0, Descriptor(count))
      && v[2] == ClearRun(size, 5, count) && v[3] == ClearRun(size, 0, 1) && v[4] == Zeroes(size)
  {
    hide Formatted, Splice;
    var v := Formatted(size, count);
    forall b | 0 <= b < 5 ensures v[b] == Metadata(size, count)[b] {
      assert v[..5][b] == v[b];
    }
  }

  lemma FormattedSized(size: nat, count: nat)
    requires SizeOk(size, count)
    ensures Sized(Geo(size), Formatted(size, count))
    ensures DescBlock(Geo(size), 0) == 1 && Desc(Geo(size), Formatted(size, count), 0) == Descriptor(count)
  {
    hide Formatted, ClearRun, Descriptor;
    FormattedHead(size, count);
    DivModUnique(0, size, 0, 0);
    DescFits(Geo(size), 0);
  }

  lemma OneTableBlock(size: nat)
    requires SizeOk(size, 0)
    ensures TableBlocks(Geo(size)) == 1
  {
    assert size / 128 * 128 == size;
    DivModUnique(size + size - 1, size, 1, size - 1);
  }

  lemma FormattedPlaced(size: nat, count: nat)
    requires SizeOk(size, count)
    ensures Placed(Geo(size), Formatted(size, count), Lay(count))
  {
    hide Formatted, Descriptor, Desc, TableBlocks, RolesOf;
    FormattedSized(size, count);
    OneTableBlock(size);
    DescriptorFields(count);
    assert GroupPlaced(Geo(size), Formatted(size, count), Lay(count), 0);
  }

  /** Which bits are clear, and how many. */
  lemma FormattedBits(size: nat, count: nat, k: Kind)
    requires SizeOk(size, count)
    ensures Placed(Geo(size), Formatted(size, count), Lay(count))
    ensures var bits := MapBits(Geo(size), Formatted(size, count), Lay(count), k, 0);
      && CountSet(bits, 8 * size) == 8 * size - (if k.OfBlocks? then count else 1)
      && forall i :: 0 <= i < 8 * size ==> (!bits[i] <==> if k.OfBlocks? then 5 <= i < 5 + count else i == 0)
  {
    hide Formatted, Descriptor, GroupPlaced, BitsOf, ClearRun, RolesOf;
    FormattedPlaced(size, count);
    FormattedHead(size, count);
    ClearRunBits(size, 5, count);
    ClearRunBits(size, 0, 1);
  }

  lemma FormattedCounted(size: nat, count: nat, k: Kind)
    requires SizeOk(size, count) && Placed(Geo(size), Formatted(size, count), Lay(count))
    ensures Counted(Geo(size), Formatted(size, count), Lay(count), k, 0)
  {
    hide Formatted, Descriptor, Desc, MapBits, RolesOf;
    FormattedBits(size, count, k);
    FormattedSized(size, count);
    DescriptorFields(count);
    assert GroupPlaced(Geo(size), Formatted(size, count), Lay(count), 0);
  }

  lemma FormattedMeans(size: nat, count: nat, k: Kind, g: nat, i: nat)
    requires SizeOk(size, count) && Placed(Geo(size), Formatted(size, count), Lay(count))
    ensures BitMeans(Geo(size), Formatted(size, count), Lay(count), k, g, i)
  {
    hide Formatted, MapBits, GroupPlaced, RolesOf;
    FormattedBits(size, count, k);
  }

  /** The formatted volume is well formed, and its free blocks are its data blocks. */
  lemma FormattedOk(size: nat, count: nat)
    requires SizeOk(size, count)
    ensures FsOk(Geo(size), Formatted(size, count), Lay(count))
    ensures forall i: nat :: FreeBit(Geo(size), Formatted(size, count), Lay(count), OfBlocks, 0, i) <==> 5 <= i < 5 + count
  {
    hide Formatted, MapBits, BitMeans, Counted, GroupPlaced, RolesOf;
    FormattedBits(size, count, OfBlocks);
    forall k, g: nat, i: nat ensures BitMeans(Geo(size), Formatted(size, count), Lay(count), k, g, i) {
      FormattedMeans(size, count, k, g, i);
    }
    forall k, g | 0 <= g < Geo(size).groups ensures Counted(Geo(size), Formatted(size, count), Lay(count), k, g) {
      FormattedCounted(size, count, k);
    }
  }

  function New(size: nat, count: nat): Fs
    requires SizeOk(size, count)
  {
    Fs(Geo(size), Lay(count), Formatted(size, count))
  }

  lemma NewFree(size: nat, count: nat, b: nat)
    requires SizeOk(size, count)
    ensures Ok(New(size, count)) && (IsFree(Geo(size), Formatted(size, count), Lay(count), b) <==> 5 <= b < 5 + count)
  {
    hide Formatted, MapBits, BitMeans, Counted, GroupPlaced, RolesOf;
    FormattedOk(size, count);
    if b < 8 * size {
      DivModUnique(b, 8 * size, 0, b);
    } else {
      NotFirstGroup(Geo(size), b);
    }
  }

  lemma NotFirstGroup(geo: Geometry, b: nat)
    requires 0 < geo.blocksPerGroup <= b
    ensures GroupOf(geo, b) >= 1
  {
    var n := geo.blocksPerGroup;
    assert b == n * (b / n) + b % n;
    MulMono(n, 1, b / n) by {
      if b / n <= 0 {
        assert false;
      }
    }
  }

  function Interval(from: nat, n: nat): (r: set<nat>)
    ensures |r| == n && forall b: nat :: b in r <==> from <= b < from + n
  {
    if n == 0 then {} else Interval(from, n - 1) + {from + n - 1}
  }

  lemma NewFreeCount(size: nat, count: nat)
    requires SizeOk(size, count)
    ensures Ok(New(size, count)) && FreeCount(New(size, count)) == count
  {
    hide Formatted, FsOk, IsFree;
    NewFree(size, count, 0);
    forall b: nat ensures b in FreeBlocks(New(size, count)) <==> b in Interval(5, count) {
      NewFree(size, count, b);
    }
    assert FreeBlocks(New(size, count)) == Interval(5, count);
  }

  /** With no files on it yet, it is where runs begin. */
  lemma NewWorldOk(size: nat, count: nat)
    requires SizeOk(size, count)
    ensures WorldOk(World(New(size, count), [])) && FreeInode(New(size, count), 1)
  {
    hide BitMeans, Counted, GroupPlaced, Formatted, FreeBit, Blank, GetInode, RecordOffset, RecordBlock, GetTableIndex, GetBlockGroup;
    NewFree(size, count, 0);
    forall nr | FreeInode(New(size, count), nr) ensures Blank(GetInode(New(size, count), nr)) {
      RecordBlank(size, count, nr);
    }
    FirstInodeFree(size, count);
  }

  lemma FirstInodeFree(size: nat, count: nat)
    requires SizeOk(size, count)
    ensures FreeInode(New(size, count), 1)
  {
    hide Formatted, MapBits, BitMeans, Counted, GroupPlaced, RolesOf;
    NewFree(size, count, 0);
    FormattedBits(size, count, OfInodes);
    DivModUnique(0, size / 128, 0, 0);
  }

  lemma RecordBlank(size: nat, count: nat, nr: nat)
    requires SizeOk(size, count) && FreeInode(New(size, count), nr)
    ensures Blank(GetInode(New(size, count), nr))
  {
    hide Formatted, BitMeans, Counted, GroupPlaced, FreeBit, Blank, RecordOffset, RecordBlock, GetTableIndex, GetBlockGroup, InodeBlock, SetWord, Lay, Zeroes;
    NewFree(size, count, 0);
    FormattedHead(size, count);
    InodeBlockRole(New(size, count), nr);
    OnlyTable(count, InodeBlock(New(size, count), nr));
    ZeroRecord(size, RecordOffset(Geo(size), GetTableIndex(Geo(size), nr)), nr);
  }

  lemma OnlyTable(count: nat, b: nat)
    requires b < 5 + count && Lay(count).roles[b].InodeTable?
    ensures b == 4
  {
  }

  lemma ZeroRecord(size: nat, off: nat, nr: u32)
    requires off + INODE_SIZE <= size
    ensures Blank(SetWord(Zeroes(size)[off..off + INODE_SIZE], NUMBER, nr))
  {
    var ino: Inode := Zeroes(size)[off..off + INODE_SIZE];
    assert Word(ino, SIZE) == 0 && Word(ino, SINGLY) == 0 && Word(ino, DOUBLY) == 0;
  }

  /** The formatted volume with a size left in the record of the free inode. */
  function Leftover(size: nat, count: nat, v: u32): Fs
    requires SizeOk(size, count)
  {
    New(size, count).(vol := Formatted(size, count)[4 := Splice(Zeroes(size), 4 * SIZE, Le32(v))])
  }

  lemma LeftoverOk(size: nat, count: nat, v: u32)
    requires SizeOk(size, count)
    ensures var fs := Leftover(size, count, v); Ok(fs) && SameInodeMaps(New(size, count), fs) && Ok(New(size, count))
  {
    hide Formatted, BitMeans, Counted, GroupPlaced, FreeBit, Splice, Zeroes;
    NewFree(size, count, 0);
    FormattedSized(size, count);
    assert |Splice(Zeroes(size), 4 * SIZE, Le32(v))| == size by {
      SpliceLength(Zeroes(size), 4 * SIZE, Le32(v));
    }
    PlainWriteOk(Geo(size), Formatted(size, count), Lay(count), Leftover(size, count, v).vol);
  }

  lemma SpliceLength(s: seq<byte>, at: nat, data: seq<byte>)
    requires at + |data| <= |s|
    ensures |Splice(s, at, data)| == |s|
  {
  }

  /** The only free inode is the first. */
  lemma OnlyFreeInode(size: nat, count: nat, nr: nat)
    requires SizeOk(size, count)
    ensures FreeInode(New(size, count), nr) <==> nr == 1
  {
    hide Formatted, MapBits, BitMeans, Counted, GroupPlaced, RolesOf;
    FirstInodeFree(size, count);
    if FreeInode(New(size, count), nr) {
      FormattedBits(size, count, OfInodes);
      FirstNumber(Geo(size), nr);
    }
  }

  lemma FirstNumber(geo: Geometry, nr: nat)
    requires geo.inodesPerGroup > 0 && nr > 0 && GetBlockGroup(geo, nr) == 0 && GetTableIndex(geo, nr) == 0
    ensures nr == 1
  {
    assert nr - 1 == geo.inodesPerGroup * ((nr - 1) / geo.inodesPerGroup) + (nr - 1) % geo.inodesPerGroup;
  }

  lemma LeftoverWords(size: nat, count: nat, v: u32)
    requires SizeOk(size, count)
    ensures Ok(Leftover(size, count, v)) && IsNumber(Geo(size), 1)
    ensures Word(GetInode(Leftover(size, count, v), 1), SIZE) == v && Word(GetInode(Leftover(size, count, v), 1), DIRECT) == 0
  {
    hide Formatted, BitMeans, Counted, FreeBit, SetWord;
    var fs := Leftover(size, count, v);
    LeftoverOk(size, count, v);
    DivModUnique(0, size / 128, 0, 0);
    InodeBlockRole(fs, 1);
    OnlyTable(count, InodeBlock(fs, 1));
    DivModUnique(0, size, 0, 0);
    LeftoverRecord(size, v);
  }

  lemma LeftoverRecord(size: nat, v: u32)
    requires size >= INODE_SIZE
    ensures var ino: Inode := Splice(Zeroes(size), 4 * SIZE, Le32(v))[..INODE_SIZE];
      Word(SetWord(ino, NUMBER, 1), SIZE) == v && Word(SetWord(ino, NUMBER, 1), DIRECT) == 0
  {
    Le32RoundTrip(v);
    var ino: Inode := Splice(Zeroes(size), 4 * SIZE, Le32(v))[..INODE_SIZE];
    assert Word(ino, SIZE) == v && Word(ino, DIRECT) == 0;
  }

  /**
    The input on which creation fails: from a record with a size left in it comes a file that
    has reserved block 0 for its first block, so it is neither empty nor well formed.
   */
  lemma StaleCreation(size: nat, count: nat, v: u32)
    requires SizeOk(size, count) && v > 0
    ensures Ok(Leftover(size, count, v)) && CreateInode(Leftover(size, count, v)).Some?
    ensures var (fs', f) := CreateInode(Leftover(size, count, v)).value;
      && Word(f, SIZE) == v && GeoOk(fs'.geo) && 0 < MaxIndex(fs'.geo) && GetAddr(fs', f, 0) == 0 && |fs'.lay.roles| > 0 && fs'.lay.roles[0] == Reserved
      && !Whole(fs', f) && !StartsEmpty(fs', f)
  {
    hide Formatted, BitMeans, Counted, GroupPlaced, FreeBit, GetInode, NewFile, CreateInode, RolesOf, Leftover, HoldersOk, AddrsApart, Keeps, Blank,
      SameBlocksFree, GrowsFresh, Word;
    var fs := Leftover(size, count, v);
    LeftoverOk(size, count, v);
    LeftoverWords(size, count, v);
    OnlyFreeInode(size, count, 1);
    LeftoverGeo(size, count, v);
    SameFreeInodes(New(size, count), fs, 1);
    CreateIff(fs);
    var (fs', f) := CreateInode(fs).value;
    SameFreeInodes(New(size, count), fs, Word(f, NUMBER));
    OnlyFreeInode(size, count, Word(f, NUMBER));
    NewFileFields(GetInode(fs, 1));
    CreatedLayout(fs, fs', f);
    NotWhole(fs', f);
  }

  lemma LeftoverGeo(size: nat, count: nat, v: u32)
    requires SizeOk(size, count)
    ensures Leftover(size, count, v).geo == Geo(size) && Leftover(size, count, v).lay == Lay(count)
  {
  }

  lemma CreatedLayout(fs: Fs, fs': Fs, f: Inode)
    requires Created(fs, fs', f)
    ensures fs'.geo == fs.geo && fs'.lay == fs.lay && Ok(fs')
  {
  }

  /** A file with bytes whose first block is the reserved one is not well formed. */
  lemma NotWhole(fs: Fs, f: Inode)
    requires Ok(fs) && Word(f, SIZE) > 0 && Word(f, DIRECT) == 0
    ensures GeoOk(fs.geo) && 0 < MaxIndex(fs.geo) && GetAddr(fs, f, 0) == 0 && !Whole(fs, f)
  {
    hide BitMeans, Counted, GroupPlaced, FreeBit, HoldersOk, AddrsApart, Word;
    DivCeilLeast(Word(f, SIZE), fs.geo.blockSize);
    assert GetAddr(fs, f, 0) == Direct(f, 0) == 0;
    assert FileBlocks(fs.geo, f) > 0;
    assert !BlockOk(fs, f, SecondOf(f), 0);
  }

  /** Inode 1, with nothing in it. */
  function Empty(): Inode {
    SetWord(Zeroes(INODE_SIZE), NUMBER, 1)
  }

  lemma EmptyWords()
    ensures Word(Empty(), SIZE) == 0 && Word(Empty(), SINGLY) == 0 && Word(Empty(), DOUBLY) == 0 && Word(Empty(), NUMBER) == 1
  {
    var z := Zeroes(INODE_SIZE);
    assert Word(z, SIZE) == 0 && Word(z, SINGLY) == 0 && Word(z, DOUBLY) == 0;
  }

  lemma EmptyOk(size: nat, count: nat)
    requires SizeOk(size, count)
    ensures FileOk(New(size, count), Empty(), SecondOf(Empty()), 0)
  {
    hide Formatted, BitMeans, Counted, GroupPlaced, Placed, Empty, Word;
    NewFree(size, count, 0);
    EmptyWords();
    DivModUnique(0, size / 128, 0, 0);
  }

  /** On it an empty file grows to `m` blocks exactly when its blocks and pointer blocks are there. */
  lemma EmptyFileGrows(size: nat, count: nat, m: nat)
    requires SizeOk(size, count) && m <= GrowthLimit(Geo(size))
    ensures FileOk(New(size, count), Empty(), SecondOf(Empty()), 0)
    ensures GrowTo(New(size, count), Empty(), 0, m).Some? <==>
      m + (if m > 12 then 1 else 0) + (if m > 12 + PerBlock(Geo(size)) then 2 else 0) <= count
  {
    hide Formatted, FsOk, FileOk, Empty, FreeCount, GrowthLimit;
    EmptyOk(size, count);
    EmptyWords();
    NewFreeCount(size, count);
    GrowToCost(New(size, count), Empty(), 0, m);
  }

  /**
    The failing input: on a formatted volume with room, a file that grows from nothing to
    one block past the limit overwrites block 0, which is reserved and belongs to no file.
   */
  lemma PastLimitOverwrites(size: nat)
    requires size % 1024 == 0 && 1024 < size <= 0x1_0000
    ensures SizeOk(size, 16 + size / 2)
    ensures var fs, limit := New(size, 16 + size / 2), GrowthLimit(Geo(size));
      && fs.lay.roles[0] == Reserved && FileOk(fs, Empty(), SecondOf(Empty()), 0)
      && GrowTo(fs, Empty(), 0, limit).Some?
      && var (fs1, ino1) := GrowTo(fs, Empty(), 0, limit).value;
         && Ok(fs1) && InodeOk(fs1.geo, ino1) && Grow(fs1, ino1, limit).Some?
         && |Grow(fs1, ino1, limit).value.0.vol| == |fs.vol| == |fs1.vol|
         && fs1.vol[0] == fs.vol[0] && Grow(fs1, ino1, limit).value.0.vol[0] != fs.vol[0]
  {
    hide Formatted, BitMeans, Counted, GroupPlaced, FreeBit, Ext2Alloc.AllocBlock, HoldersOk, BlockOk, AddrsApart, Empty, FreeBlocks,
      Grow, Grown, Recorded, HolderBlocks, PutPtr, PtrIn;
    var count := 16 + size / 2;
    var fs, limit := New(size, count), GrowthLimit(Geo(size));
    EmptyOk(size, count);
    EmptyWords();
    NewFreeCount(size, count);
    GrowToCost(fs, Empty(), 0, limit);
    var (fs1, ino1) := GrowTo(fs, Empty(), 0, limit).value;
    GrownPieces(fs, Empty(), 0, fs1, ino1, limit);
    GrownFile(fs, Empty(), 0, fs1, ino1, limit);
    LimitHolders(fs1, ino1);
    GrowToStale(fs, Empty(), 0, limit);
    FirstGapIndex(fs.geo);
    var d := Word(ino1, DOUBLY);
    NewFree(size, count, d);
    ZeroWord(fs, d, 1);
    FormattedHead(size, count);
    AllocCost(fs1);
    PastLimitStore(fs1, ino1, limit);
    ZeroOverwritten(fs1, AllocBlock(fs1.geo, fs1.vol, fs1.lay).value.0, AllocBlock(fs1.geo, fs1.vol, fs1.lay).value.1);
  }

  /** A block whose every word is `v`. */
  function Repeated(size: nat, v: u32): (r: seq<byte>)
    ensures |r| == size
  {
    seq(size, i requires 0 <= i < size => Le32(v)[i % 4])
  }

  /** The formatted volume with its own number of blocks left in every word of every free block. */
  function Worn(size: nat, count: nat): (r: Volume)
    requires SizeOk(size, count)
    ensures |r| == 5 + count && r[..5] == Metadata(size, count)
    ensures forall b :: 5 <= b < 5 + count ==> r[b] == Repeated(size, 5 + count)
  {
    Metadata(size, count) + seq(count, _ => Repeated(size, 5 + count))
  }

  function Used(size: nat, count: nat): Fs
    requires SizeOk(size, count)
  {
    Fs(Geo(size), Lay(count), Worn(size, count))
  }

  lemma RepeatedWord(fs: Fs, d: nat, k: nat, v: u32)
    requires d < |fs.vol| && fs.vol[d] == Repeated(fs.geo.blockSize, v) && 4 * k + 4 <= fs.geo.blockSize
    ensures PtrIn(fs.vol, d, k) == v
  {
    var s := fs.vol[d];
    Le32RoundTrip(v);
    assert s[4 * k] == Le32(v)[0] && s[4 * k + 1] == Le32(v)[1] && s[4 * k + 2] == Le32(v)[2] && s[4 * k + 3] == Le32(v)[3];
  }

  lemma WornHead(size: nat, count: nat, b: nat)
    requires SizeOk(size, count) && b < 5
    ensures Worn(size, count)[b] == Formatted(size, count)[b]
  {
    assert Worn(size, count)[..5][b] == Formatted(size, count)[..5][b];
  }

  lemma WornOk(size: nat, count: nat)
    requires SizeOk(size, count)
    ensures SameFree(New(size, count), Used(size, count)) && FreeCount(Used(size, count)) == count
  {
    hide Formatted, Worn, Metadata, BitMeans, Counted, GroupPlaced, FreeBit, Repeated, FreeBlocks, RolesOf;
    NewFreeCount(size, count);
    FormattedSized(size, count);
    forall b | 0 <= b < 5 + count && !Plain(Lay(count), b) ensures Worn(size, count)[b] == Formatted(size, count)[b] {
      WornHead(size, count, b);
    }
    forall b | 0 <= b < 5 + count ensures |Worn(size, count)[b]| == size {
      if b < 5 {
        WornHead(size, count, b);
      }
    }
    PlainWriteOk(Geo(size), Formatted(size, count), Lay(count), Worn(size, count));
    SameFreeCount(New(size, count), Used(size, count));
  }

  lemma WornGrows(size: nat)
    requires size % 1024 == 0 && 1024 < size <= 0x1_0000
    ensures SizeOk(size, 16 + size / 2)
    ensures var fs := Used(size, 16 + size / 2);
      && FileOk(fs, Empty(), SecondOf(Empty()), 0)
      && GrowTo(fs, Empty(), 0, GrowthLimit(fs.geo)).Some? && FreeCount(fs) > Need(fs.geo, Empty(), 0, GrowthLimit(fs.geo))
  {
    hide Worn, FsOk, FileOk, Empty, FreeBlocks, Grown;
    WornOk(size, 16 + size / 2);
    EmptyOn(Used(size, 16 + size / 2), size, 16 + size / 2);
    EmptyWords();
    GrowToCost(Used(size, 16 + size / 2), Empty(), 0, GrowthLimit(Geo(size)));
  }

  /**
    Another failing input: where the free blocks hold the number of the block after the
    last, the turn past the limit stores behind the partition, on whatever is there, and
    panics where the disk ends with the partition.
   */
  lemma PastEndStores(size: nat, count: nat, t: Turn)
    requires SizeOk(size, count) && FileOk(Used(size, count), Empty(), SecondOf(Empty()), 0) && NextTurn(Used(size, count), Empty(), 0, t)
    ensures TurnReady(t) && Target(t) == BlockStart(Geo(size), 5 + count)
    ensures |t.disk| == Target(t) ==> Outcome(t).None?
    ensures |t.disk| >= Target(t) + 512 ==> Outcome(t).Some?
    ensures |t.disk| >= Target(t) + 512 && U32(t.disk, Target(t)) != t.nr ==> ChangedBehind(t, Outcome(t).value)
  {
    hide Formatted, Worn, BitMeans, Counted, GroupPlaced, FreeBit, FileOk, Ext2Alloc.AllocBlock, Empty, FreeBlocks, NextTurn, PtrIn, Repeated, BlockStart, Holds, Outcome,
      Undamaged, WithinDisk, FreeBelow, Good, IsFree, Decode, Grow, U32, ChangedBehind;
    var fs := Used(size, count);
    EmptyWords();
    FileGeo(fs, Empty(), 0);
    FirstGapIndex(fs.geo);
    OnePastIff(fs, Empty(), 0, t);
    WornWord(size, count, Word(t.ino, DOUBLY));
    TurnOnVolume(t);
    AtEnd(t);
  }

  lemma WornWord(size: nat, count: nat, d: nat)
    requires SizeOk(size, count) && Ok(Used(size, count)) && d in FreeBlocks(Used(size, count))
    ensures PtrIn(Worn(size, count), d, 1) == 5 + count
  {
    hide Formatted, Worn, BitMeans, Counted, GroupPlaced, FreeBit, PtrIn, Repeated, FreeBlocks;
    WornOk(size, count);
    FreeBlocksHas(Used(size, count), d);
    NewFree(size, count, d);
    RepeatedWord(Used(size, count), d, 1, 5 + count);
  }

  lemma AtEnd(t: Turn)
    requires TurnReady(t) && Target(t) == BlockStart(t.fs.geo, |t.fs.vol|)
    ensures |t.disk| == Target(t) ==> Outcome(t).None?
    ensures |t.disk| >= Target(t) + 512 ==> Outcome(t).Some?
  {
    hide BitMeans, Counted, GroupPlaced, FreeBit, Ext2Alloc.AllocBlock, Holds, Decode, Splice;
    BlockSectors(t.fs.geo, |t.fs.vol|);
    var k := t.fs.geo.startLba + |t.fs.vol| * (t.fs.geo.blockSize / 512);
    assert Target(t) == k * 512;
    OneSector(|t.disk|, k);
  }

  lemma OneSector(length: nat, k: nat)
    ensures WithinDisk(length, k * 512, 4) <==> k * 512 + 512 <= length
  {
    DivModUnique(k * 512, 512, k, 0);
    assert DivCeil(4, 512) == 1;
  }

  lemma EmptyOn(fs: Fs, size: nat, count: nat)
    requires SizeOk(size, count) && Ok(fs) && fs.geo == Geo(size)
    ensures FileOk(fs, Empty(), SecondOf(Empty()), 0)
  {
    hide BitMeans, Counted, GroupPlaced, Placed, Empty, Word;
    EmptyWords();
    DivModUnique(0, size / 128, 0, 0);
  }

  /** The first two blocks of a file on a fresh volume lie side by side. */
  lemma TwoBlocksAdjacent(size: nat, count: nat)
    requires SizeOk(size, count) && count >= 2
    ensures FileOk(New(size, count), Empty(), SecondOf(Empty()), 0) && GrowTo(New(size, count), Empty(), 0, 2).Some?
    ensures var (fs', ino') := GrowTo(New(size, count), Empty(), 0, 2).value; Direct(ino', 0) == 5 && Direct(ino', 1) == 6
  {
    hide Formatted, FsOk, FileOk, Empty, FreeBlocks, Grown, Grow, Direct;
    var fs := New(size, count);
    EmptyOk(size, count);
    EmptyWords();
    NewFreeCount(size, count);
    FreeOfNew(size, count);
    GrowToCost(fs, Empty(), 0, 2);
    var (fs1, ino1) := Grow(fs, Empty(), 0).value;
    DirectLowest(fs, Empty(), 0);
    LowestIs(FreeBlocks(fs), FreeBlocks(fs1), Direct(ino1, 0), 5);
    FileGeo(fs1, ino1, 1);
    DirectLowest(fs1, ino1, 1);
    var (fs2, ino2) := Grow(fs1, ino1, 1).value;
    LowestIs(FreeBlocks(fs1), FreeBlocks(fs2), Direct(ino2, 1), 6);
    assert GrowTo(fs2, ino2, 2, 2) == Some((fs2, ino2));
    assert GrowTo(fs1, ino1, 1, 2) == Some((fs2, ino2));
  }

  lemma LowestIs(s: set<nat>, t: set<nat>, a: nat, low: nat)
    requires a in s && t == s - {a} && low in s && (forall b :: b in s ==> low <= b) && (forall b :: b in t ==> a < b)
    ensures a == low
  {
    assert a != low ==> low in t;
  }

  lemma FreeOfNew(size: nat, count: nat)
    requires SizeOk(size, count)
    ensures Ok(New(size, count)) && forall b: nat :: b in FreeBlocks(New(size, count)) <==> 5 <= b < 5 + count
  {
    hide Formatted, FsOk, IsFree, FreeBlocks;
    NewFree(size, count, 0);
    forall b: nat ensures b in FreeBlocks(New(size, count)) <==> 5 <= b < 5 + count {
      FreeBlocksHas(New(size, count), b);
      NewFree(size, count, b);
    }
  }

  lemma TwoBlockFile(size: nat, count: nat)
    requires SizeOk(size, count) && count >= 2
    ensures FileOk(New(size, count), Empty(), SecondOf(Empty()), 0) && BlockCount(Geo(size), 0) == 0 == Word(Empty(), SIZE)
    ensures BlockCount(Geo(size), 2 * size) == 2 <= GrowthLimit(Geo(size)) && Resize(New(size, count), Empty(), 2 * size).Some?
    ensures var (fs1, ino1) := Resize(New(size, count), Empty(), 2 * size).value;
      && fs1.geo == Geo(size) && Word(ino1, SIZE) == 2 * size && FileOk(fs1, ino1, SecondOf(ino1), 2)
      && Direct(ino1, 0) == 5 && Direct(ino1, 1) == 6
  {
    hide Formatted, FsOk, FileOk, Empty, Grown, BlockCount, GrowthLimit, GrowTo, PutInode, Sized32, Word, Direct;
    EmptyWords();
    TwoUnits(size);
    TwoBlocksAdjacent(size, count);
    DirectSized(Geo(size), GrowTo(New(size, count), Empty(), 0, 2).value.1, 2 * size);
    ResizeFile(New(size, count), Empty(), 2 * size);
  }

  lemma DirectSized(geo: Geometry, ino: Inode, newSize: nat)
    requires geo.blockSize > 0
    ensures forall w :: 0 <= w < 12 ==> Direct(Sized32(geo, ino, newSize), w) == Direct(ino, w)
  {
    hide BlockCount, Quot, Word;
  }

  lemma TwoUnits(size: nat)
    requires SizeOk(size, 0)
    ensures BlockCount(Geo(size), 0) == 0 && BlockCount(Geo(size), 2 * size) == 2 <= GrowthLimit(Geo(size)) && BlockCount(Geo(size), 1 + size) == 2
  {
    DivModUnique(size - 1, size, 0, size - 1);
    DivModUnique(2 * size + size - 1, size, 2, size - 1);
    DivModUnique(1 + size + size - 1, size, 2, 0);
  }

  /**
    The input for the bounce buffer: on a fresh volume with blocks of whole pages, a write of
    one block's worth of bytes at offset 1 of a file of two blocks overruns.
   */
  lemma SpillExample(size: nat, count: nat, j: Job, data: seq<byte>)
    requires SizeOk(size, count) && count >= 2 && size % 4096 == 0
    requires j.offset == 1 && |data| == j.bytes == size && JobOk(j)
    requires var r := New(size, count);
      && FileOk(r, Empty(), SecondOf(Empty()), BlockCount(r.geo, Word(Empty(), SIZE))) && BlockCount(r.geo, 2 * size) <= GrowthLimit(r.geo)
      && Resize(r, Empty(), 2 * size) == Some((j.fs, j.ino))
    ensures OneBlock(Blocks(j), j.offset, j.bytes) && SizeKept(j.fs.geo, Size(j), End(j)) && !FitsBounce(j.offset, j.bytes)
    ensures !WroteRight(j, data)
  {
    hide Formatted, FsOk, FileOk, Empty, BlockCount, GrowthLimit, GrowTo, PutInode, Holds, WroteRight, SizeKept, OneBlock, FitsBounce, Grown;
    TwoBlockFile(size, count);
    TwoUnits(size);
    JobFacts(j);
    DirectStarts(j.fs, j.ino);
    NextStart(j.fs.geo, 5);
    SpillOverruns(j, data);
  }

  lemma DirectStarts(fs: Fs, ino: Inode)
    requires GeoOk(fs.geo) && 2 <= MaxIndex(fs.geo)
    ensures ExtentOf(fs, ino, 2).starts[0] == BlockStart(fs.geo, Direct(ino, 0)) && ExtentOf(fs, ino, 2).starts[1] == BlockStart(fs.geo, Direct(ino, 1))
  {
  }

  lemma ThreeBlocksGrown(size: nat, count: nat)
    requires SizeOk(size, count) && count >= 3
    ensures FileOk(New(size, count), Empty(), SecondOf(Empty()), 0) && BlockCount(Geo(size), 0) == 0 == Word(Empty(), SIZE)
    ensures BlockCount(Geo(size), 3 * size) == 3 <= GrowthLimit(Geo(size)) && Resize(New(size, count), Empty(), 3 * size).Some?
    ensures var (fs1, ino1) := Resize(New(size, count), Empty(), 3 * size).value;
      fs1.geo == Geo(size) && Word(ino1, SIZE) == 3 * size && FileOk(fs1, ino1, SecondOf(ino1), 3)
  {
    hide Formatted, FsOk, FileOk, Empty, FreeCount, Resize, Word, Grown, BlockCount, GrowthLimit;
    EmptyOk(size, count);
    EmptyWords();
    NewFreeCount(size, count);
    ThreeBlocks(size);
    ResizeIff(New(size, count), Empty(), 3 * size);
    ResizeFile(New(size, count), Empty(), 3 * size);
  }

  /** Another: ten bytes written at the start of a file of three blocks leave it ten bytes long. */
  lemma ThreeBlocksCut(size: nat, count: nat)
    requires SizeOk(size, count) && count >= 3
    ensures FileOk(New(size, count), Empty(), SecondOf(Empty()), 0) && BlockCount(Geo(size), 0) == 0 == Word(Empty(), SIZE)
    ensures BlockCount(Geo(size), 3 * size) == 3 <= GrowthLimit(Geo(size)) && Resize(New(size, count), Empty(), 3 * size).Some?
    ensures var (fs1, ino1) := Resize(New(size, count), Empty(), 3 * size).value;
      && fs1.geo == Geo(size) && Word(ino1, SIZE) == 3 * size && FileOk(fs1, ino1, SecondOf(ino1), 3)
      && BlockCount(Geo(size), 10) <= GrowthLimit(Geo(size)) && Resize(fs1, ino1, 10).Some?
      && Word(Resize(fs1, ino1, 10).value.1, SIZE) == 10
  {
    hide Formatted, FsOk, FileOk, Empty, Resize, Word, BlockCount, GrowthLimit;
    ThreeBlocksGrown(size, count);
    var (fs1, ino1) := Resize(New(size, count), Empty(), 3 * size).value;
    TruncatingWrite(fs1, ino1);
  }

  lemma ThreeBlocks(size: nat)
    requires SizeOk(size, 0)
    ensures BlockCount(Geo(size), 0) == 0 && BlockCount(Geo(size), 3 * size) == 3 <= GrowthLimit(Geo(size))
  {
    DivModUnique(size - 1, size, 0, size - 1);
    DivModUnique(3 * size + size - 1, size, 3, size - 1);
  }

  lemma ZeroWord(fs: Fs, d: nat, k: nat)
    requires d < |fs.vol| && fs.vol[d] == Zeroes(|fs.vol[d]|)
    ensures PtrIn(fs.vol, d, k) == 0
  {
  }

  /** Block 0, zero before and after the allocation, changes when a block number is stored in it. */
  lemma ZeroOverwritten(fs: Fs, vol1: Volume, nr: u32)
    requires Ok(fs) && AllocBlock(fs.geo, fs.vol, fs.lay) == Some((vol1, nr as nat))
    requires fs.vol[0] == Zeroes(fs.geo.blockSize) && 1 < PerBlock(fs.geo)
    ensures |PutPtr(vol1, 0, 0, nr)| == |fs.vol| > 0 && PutPtr(vol1, 0, 0, nr)[0] != fs.vol[0]
  {
    hide BitMeans, Counted, GroupPlaced, FreeBit, Ext2Alloc.AllocBlock, PutPtr, Keeps;
    AllocSameData(fs);
    AllocKeeps(fs);
    KeepsOk(fs, fs.(vol := vol1));
    PutPtrChanges(fs.geo, vol1, 0, 0, nr);
    ZeroWord(fs.(vol := vol1), 0, 0);
  }
}
