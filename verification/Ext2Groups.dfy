/** Allocating several bits of one group: `n` lowest clear bits as `n` single allocations. */
module Ext2Many {
  import opened Arith
  import opened Bits
  import opened Bitmaps
  import opened Options
  import opened Disks
  import opened SlabSpec
  import opened Ext2Layout
  import opened Ext2Alloc

  /** `n` single allocations from one group, one after the other; it stops early when the group is full. */
  ghost function TakeMany(geo: Geometry, vol: Volume, lay: Layout, k: Kind, g: nat, n: nat): (r: (Volume, seq<nat>))
    requires FsOk(geo, vol, lay) && g < geo.groups
    ensures FsOk(geo, r.0, lay) && |r.0| == |vol| && |r.1| <= n
    decreases n
  {
    if n == 0 then (vol, [])
    else
      var (w, taken) := TakeMany(geo, vol, lay, k, g, n - 1);
      match GroupTake(geo, w, lay, k, g)
      case None => (w, taken)
      case Some((w', i)) =>
        GroupTakeIff(geo, w, lay, k, g);
        AfterOk(Taking(geo, w, lay, k, g, i));
        AfterDesc(Taking(geo, w, lay, k, g, i), g);
        (w', taken + [i])
  }

  /** `taken` is strictly ascending, and no clear bit outside it lies below any of its members. */
  ghost predicate Lowest(bits: seq<bool>, taken: seq<nat>) {
    && (forall a :: 0 <= a < |taken| ==> taken[a] < |bits| && !bits[taken[a]])
    && (forall a, b :: 0 <= a < b < |taken| ==> taken[a] < taken[b])
    && (forall j :: 0 <= j < |bits| && !bits[j] && j !in taken ==> AllBelow(taken, j))
  }

  ghost predicate AllBelow(taken: seq<nat>, j: nat) {
    forall a :: 0 <= a < |taken| ==> taken[a] < j
  }

  ghost predicate SetIn(bits: seq<bool>, bits': seq<bool>, taken: seq<nat>) {
    |bits'| == |bits| && forall j :: 0 <= j < |bits| ==> bits'[j] == (bits[j] || j in taken)
  }

  lemma LowestExtends(bits: seq<bool>, taken: seq<nat>, now: seq<bool>, i: nat)
    requires TakenLowest(bits, now, taken) && FirstClear(now, 0) == Some(i)
    ensures TakenLowest(bits, now[i := true], taken + [i])
  {
    assert i !in taken;
  }

  lemma TakeBits(geo: Geometry, vol: Volume, lay: Layout, k: Kind, g: nat)
    requires FsOk(geo, vol, lay) && g < geo.groups && GroupTake(geo, vol, lay, k, g).Some?
    ensures var (vol', i) := GroupTake(geo, vol, lay, k, g).value;
      && Placed(geo, vol', lay) && FirstClear(MapBits(geo, vol, lay, k, g), 0) == Some(i)
      && MapBits(geo, vol', lay, k, g) == MapBits(geo, vol, lay, k, g)[i := true]
  {
    GroupTakeIff(geo, vol, lay, k, g);
    var t := Taking(geo, vol, lay, k, g, GroupTake(geo, vol, lay, k, g).value.1);
    AfterOk(t);
    AfterBits(t, k, g);
  }

  ghost predicate TakenLowest(bits: seq<bool>, now: seq<bool>, taken: seq<nat>) {
    Lowest(bits, taken) && SetIn(bits, now, taken)
  }

  lemma LowestStep(geo: Geometry, w: Volume, lay: Layout, k: Kind, g: nat, bits: seq<bool>, taken: seq<nat>)
    requires FsOk(geo, w, lay) && g < geo.groups && TakenLowest(bits, MapBits(geo, w, lay, k, g), taken)
    requires GroupTake(geo, w, lay, k, g).Some?
    ensures var (w', i) := GroupTake(geo, w, lay, k, g).value;
      Placed(geo, w', lay) && TakenLowest(bits, MapBits(geo, w', lay, k, g), taken + [i])
  {
    TakeBits(geo, w, lay, k, g);
    LowestExtends(bits, taken, MapBits(geo, w, lay, k, g), GroupTake(geo, w, lay, k, g).value.1);
  }

  lemma LowestStart(bits: seq<bool>)
    ensures TakenLowest(bits, bits, [])
  {
  }

  /** The bits taken are the lowest clear ones, and only they change. */
  lemma {:induction false} TakeManyLowest(geo: Geometry, vol: Volume, lay: Layout, k: Kind, g: nat, n: nat, bits: seq<bool>)
    requires FsOk(geo, vol, lay) && g < geo.groups && bits == MapBits(geo, vol, lay, k, g)
    ensures var (w, taken) := TakeMany(geo, vol, lay, k, g, n);
      TakenLowest(bits, MapBits(geo, w, lay, k, g), taken)
    decreases n
  {
    hide GroupTake, TakenLowest;
    if n == 0 {
      LowestStart(bits);
    } else {
      var (w, taken) := TakeMany(geo, vol, lay, k, g, n - 1);
      TakeManyLowest(geo, vol, lay, k, g, n - 1, bits);
      var r := GroupTake(geo, w, lay, k, g);
      if r.Some? {
        LowestStep(geo, w, lay, k, g, bits, taken);
        assert TakeMany(geo, vol, lay, k, g, n) == (r.value.0, taken + [r.value.1]);
      } else {
        assert TakeMany(geo, vol, lay, k, g, n) == (w, taken);
      }
    }
  }

  function Counter(geo: Geometry, vol: Volume, k: Kind, g: nat): u16
    requires Sized(geo, vol) && DescBlock(geo, g) < |vol|
  {
    U16(Desc(geo, vol, g), CountField(k))
  }

  lemma CounterOfTake(t: Taking)
    requires CanTake(t)
    ensures FsOk(t.geo, After(t), t.lay) && DescBlock(t.geo, t.g) < |t.vol| && |After(t)| == |t.vol|
    ensures Counter(t.geo, t.vol, t.k, t.g) > 0
    ensures Counter(t.geo, After(t), t.k, t.g) == Counter(t.geo, t.vol, t.k, t.g) - 1
  {
    AfterOk(t);
    CounterPositive(t);
    AfterDesc(t, t.g);
    CounterOverlay(Desc(t.geo, t.vol, t.g), t.k, t.k);
  }

  /** On a well-formed volume a group yields a bit exactly when its counter is positive, and the counter then falls by one. */
  lemma CounterStep(geo: Geometry, vol: Volume, lay: Layout, k: Kind, g: nat)
    requires FsOk(geo, vol, lay) && g < geo.groups
    ensures DescBlock(geo, g) < |vol|
    ensures match GroupTake(geo, vol, lay, k, g)
            case None => Counter(geo, vol, k, g) == 0
            case Some((vol', i)) =>
              && Sized(geo, vol') && |vol'| == |vol|
              && Counter(geo, vol, k, g) > 0 && Counter(geo, vol', k, g) == Counter(geo, vol, k, g) - 1
  {
    assert GroupPlaced(geo, vol, lay, g) && Counted(geo, vol, lay, k, g);
    FullIffAllSet(MapBits(geo, vol, lay, k, g), 8 * geo.blockSize);
    GroupTakeIff(geo, vol, lay, k, g);
    var r := GroupTake(geo, vol, lay, k, g);
    if r.Some? {
      CounterOfTake(Taking(geo, vol, lay, k, g, r.value.1));
    }
  }

  /** It yields `n` bits exactly when the counter is at least `n`; the counter falls by what was taken. */
  lemma {:induction false} TakeManyCount(geo: Geometry, vol: Volume, lay: Layout, k: Kind, g: nat, n: nat)
    requires FsOk(geo, vol, lay) && g < geo.groups
    ensures DescBlock(geo, g) < |vol|
    ensures var (w, taken) := TakeMany(geo, vol, lay, k, g, n);
      && |taken| == (if n <= Counter(geo, vol, k, g) then n else Counter(geo, vol, k, g))
      && Counter(geo, w, k, g) == Counter(geo, vol, k, g) - |taken|
    decreases n
  {
    hide GroupTake;
    CounterStep(geo, vol, lay, k, g);
    if n > 0 {
      TakeManyCount(geo, vol, lay, k, g, n - 1);
      CounterStep(geo, TakeMany(geo, vol, lay, k, g, n - 1).0, lay, k, g);
    }
  }

  /** Outside the bitmap they change two bytes of the volume: 12 and 13 of the descriptor for blocks, 14 and 15 for inodes. */
  lemma {:induction false} TakeManyBytes(geo: Geometry, vol: Volume, lay: Layout, k: Kind, g: nat, n: nat, b: nat, x: nat)
    requires FsOk(geo, vol, lay) && g < geo.groups && b < |vol| && x < geo.blockSize
    requires b != MapAt(lay, k, g) && !InCounter(geo, k, g, b, x)
    ensures var w := TakeMany(geo, vol, lay, k, g, n).0; |w[b]| == |vol[b]| == geo.blockSize && w[b][x] == vol[b][x]
    decreases n
  {
    hide GroupTake, InCounter, GroupPlaced, BitMeans, Counted;
    if n > 0 {
      TakeManyBytes(geo, vol, lay, k, g, n - 1, b, x);
      var w := TakeMany(geo, vol, lay, k, g, n - 1).0;
      GroupTakeIff(geo, w, lay, k, g);
      var r := GroupTake(geo, w, lay, k, g);
      if r.Some? {
        AfterBytes(Taking(geo, w, lay, k, g, r.value.1), b, x);
      }
    }
  }

  // -------- the deferred writes of alloc_block --------

  /** The volume once a bitmap and a descriptor kept in memory are written out. */
  function WrittenOut(geo: Geometry, vol: Volume, m: nat, bytes: seq<byte>, g: nat, raw: seq<byte>): (r: Volume)
    requires Sized(geo, vol) && m < |vol| && |bytes| == geo.blockSize
    requires DescBlock(geo, g) < |vol| && |raw| == DESC_SIZE
  {
    PutDesc(geo, vol[m := bytes], g, raw)
  }

  lemma WrittenOutSame(geo: Geometry, vol: Volume, m: nat, g: nat)
    requires Sized(geo, vol) && m < |vol| && DescBlock(geo, g) < |vol|
    ensures WrittenOut(geo, vol, m, vol[m], g, Desc(geo, vol, g)) == vol
  {
    DescFits(geo, g);
    var d, o := DescBlock(geo, g), DescOffset(geo, g);
    assert vol[m := vol[m]] == vol;
    assert Splice(vol[d], o, vol[d][o..o + DESC_SIZE]) == vol[d];
  }

  /** Setting one more bit in memory is taking one more bit on disk. */
  lemma WrittenOutTake(geo: Geometry, vol: Volume, k: Kind, m: nat, bytes: seq<byte>, g: nat, raw: seq<byte>, i: nat)
    requires Sized(geo, vol) && m < |vol| && |bytes| == geo.blockSize && i < 8 * geo.blockSize
    requires DescBlock(geo, g) < |vol| && |raw| == DESC_SIZE && m != DescBlock(geo, g)
    requires U16(raw, CountField(k)) > 0
    ensures var w := WrittenOut(geo, vol, m, bytes, g, raw);
      && Desc(geo, w, g) == raw && w[m] == bytes
      && Take(geo, w, k, g, m, i) == WrittenOut(geo, vol, m, SetBit(bytes, i), g, Lowered(raw, k))
  {
    var w := WrittenOut(geo, vol, m, bytes, g, raw);
    var d, raw' := DescBlock(geo, g), Lowered(raw, k);
    DescFits(geo, g);
    DescOfPut(geo, vol[m := bytes], g, raw, g);
    assert Take(geo, w, k, g, m, i)[d] == WrittenOut(geo, vol, m, SetBit(bytes, i), g, raw')[d];
  }

  /** After `n` steps of a scan the bitmap and the descriptor in memory are those of `n` single allocations. */
  ghost predicate Scanned(geo: Geometry, vol: Volume, lay: Layout, k: Kind, g: nat, bytes: seq<byte>, raw: seq<byte>, taken: seq<nat>) {
    && FsOk(geo, vol, lay) && g < geo.groups && |bytes| == geo.blockSize && |raw| == DESC_SIZE
    && DescBlock(geo, g) < |vol| && MapAt(lay, k, g) < |vol|
    && TakeMany(geo, vol, lay, k, g, |taken|) == (WrittenOut(geo, vol, MapAt(lay, k, g), bytes, g, raw), taken)
  }

  lemma ScanStart(geo: Geometry, vol: Volume, lay: Layout, k: Kind, g: nat)
    requires FsOk(geo, vol, lay) && g < geo.groups
    ensures DescBlock(geo, g) < |vol| && MapAt(lay, k, g) < |vol| && DescBlock(geo, g) != MapAt(lay, k, g)
    ensures U32(Desc(geo, vol, g), MapField(k)) == MapAt(lay, k, g)
    ensures Scanned(geo, vol, lay, k, g, vol[MapAt(lay, k, g)], Desc(geo, vol, g), [])
  {
    assert GroupPlaced(geo, vol, lay, g);
    WrittenOutSame(geo, vol, MapAt(lay, k, g), g);
  }

  lemma WrittenOutReads(geo: Geometry, vol: Volume, m: nat, bytes: seq<byte>, g: nat, raw: seq<byte>)
    requires Sized(geo, vol) && m < |vol| && |bytes| == geo.blockSize
    requires DescBlock(geo, g) < |vol| && |raw| == DESC_SIZE && m != DescBlock(geo, g)
    ensures var w := WrittenOut(geo, vol, m, bytes, g, raw);
      Sized(geo, w) && |w| == |vol| && Desc(geo, w, g) == raw && w[m] == bytes
  {
    DescOfPut(geo, vol[m := bytes], g, raw, g);
  }

  /** What the next single allocation sees is what the scan has in memory. */
  lemma ScanSees(geo: Geometry, vol: Volume, lay: Layout, k: Kind, g: nat, bytes: seq<byte>, raw: seq<byte>, taken: seq<nat>)
    requires Scanned(geo, vol, lay, k, g, bytes, raw, taken)
    ensures var w := TakeMany(geo, vol, lay, k, g, |taken|).0;
      && DescBlock(geo, g) < |w| && Desc(geo, w, g) == raw && MapBits(geo, w, lay, k, g) == BitsOf(bytes)
      && w[MapAt(lay, k, g)] == bytes
  {
    ScanStart(geo, vol, lay, k, g);
    WrittenOutReads(geo, vol, MapAt(lay, k, g), bytes, g, raw);
  }

  lemma ScanStep(geo: Geometry, vol: Volume, lay: Layout, k: Kind, g: nat, bytes: seq<byte>, raw: seq<byte>, taken: seq<nat>, i: nat)
    requires Scanned(geo, vol, lay, k, g, bytes, raw, taken) && FirstClear(BitsOf(bytes), 0) == Some(i)
    ensures U16(raw, CountField(k)) > 0
    ensures Scanned(geo, vol, lay, k, g, SetBit(bytes, i), Lowered(raw, k), taken + [i])
    ensures Number(geo, k, g, i) < 0x1_0000_0000
  {
    hide GroupTake, Take, WrittenOut, Lowered, MapBits, FirstClear;
    var w := TakeMany(geo, vol, lay, k, g, |taken|).0;
    ScanSees(geo, vol, lay, k, g, bytes, raw, taken);
    ScanStart(geo, vol, lay, k, g);
    ScanTakes(geo, w, lay, k, g, i);
    WrittenOutTake(geo, vol, k, MapAt(lay, k, g), bytes, g, raw, i);
  }

  lemma ScanTakes(geo: Geometry, w: Volume, lay: Layout, k: Kind, g: nat, i: nat)
    requires FsOk(geo, w, lay) && g < geo.groups && FirstClear(MapBits(geo, w, lay, k, g), 0) == Some(i)
    ensures DescBlock(geo, g) < |w| && MapAt(lay, k, g) < |w| && U16(Desc(geo, w, g), CountField(k)) > 0
    ensures GroupTake(geo, w, lay, k, g) == Some((Take(geo, w, k, g, MapAt(lay, k, g), i), i))
    ensures Number(geo, k, g, i) < 0x1_0000_0000
  {
    ScanStart(geo, w, lay, k, g);
    CounterPositive(Taking(geo, w, lay, k, g, i));
    assert BitMeans(geo, w, lay, k, g, i);
    UnitsOrdered(PerGroup(geo, k), g, geo.groups);
  }

  /** A scan that finds no clear bit has taken as many as the counter promised. */
  lemma ScanEnd(geo: Geometry, vol: Volume, lay: Layout, k: Kind, g: nat, bytes: seq<byte>, raw: seq<byte>, taken: seq<nat>)
    requires Scanned(geo, vol, lay, k, g, bytes, raw, taken) && FirstClear(BitsOf(bytes), 0) == None
    ensures |taken| == Counter(geo, vol, k, g)
  {
    var w := TakeMany(geo, vol, lay, k, g, |taken|).0;
    ScanSees(geo, vol, lay, k, g, bytes, raw, taken);
    CounterStep(geo, w, lay, k, g);
    TakeManyCount(geo, vol, lay, k, g, |taken|);
  }

  /** The descriptor in memory still says where the bitmap is, and writing both out is `TakeMany`. */
  lemma ScannedMap(geo: Geometry, vol: Volume, lay: Layout, k: Kind, g: nat, bytes: seq<byte>, raw: seq<byte>, taken: seq<nat>)
    requires Scanned(geo, vol, lay, k, g, bytes, raw, taken)
    ensures U32(raw, MapField(k)) == MapAt(lay, k, g)
    ensures var w := WrittenOut(geo, vol, MapAt(lay, k, g), bytes, g, raw);
      && FsOk(geo, w, lay) && |w| == |vol| && Desc(geo, w, g) == raw
      && TakeMany(geo, vol, lay, k, g, |taken|) == (w, taken)
  {
    ScanSees(geo, vol, lay, k, g, bytes, raw, taken);
    ScanStart(geo, TakeMany(geo, vol, lay, k, g, |taken|).0, lay, k, g);
  }

  /** One allocation through the general path is the single allocation. */
  lemma TakeOne(geo: Geometry, vol: Volume, lay: Layout, k: Kind, g: nat)
    requires FsOk(geo, vol, lay) && g < geo.groups
    ensures match GroupTake(geo, vol, lay, k, g)
            case None => TakeMany(geo, vol, lay, k, g, 1) == (vol, [])
            case Some((vol', i)) => TakeMany(geo, vol, lay, k, g, 1) == (vol', [i])
  {
    hide GroupTake;
    assert TakeMany(geo, vol, lay, k, g, 0) == (vol, []);
    var r := GroupTake(geo, vol, lay, k, g);
    if r.Some? {
      assert [] + [r.value.1] == [r.value.1];
    }
  }
}

/** The mounted file system and its block groups, on the device, as in src/fs/ext2.rs. */
module Ext2Groups {
  import opened Arith
  import opened Bits
  import opened Bitmaps
  import opened Options
  import opened Disks
  import opened Ahci
  import opened SlabSpec
  import opened Ext2Layout
  import opened Ext2Alloc
  import opened Ext2File
  import opened Ext2Many

  /** One past the last byte an LBA of 48 bits reaches. */
  const BYTE_LIMIT: nat := 0x200_0000_0000_0000

  lemma SectorSplit(k: nat, off: nat)
    ensures (k * 512 + off) % 512 == off % 512 && (k * 512 + off) / 512 == k + off / 512
  {
  }

  lemma SectorsEnd(off: nat, n: nat, s: nat)
    requires n > 0 && off + n <= s * 512
    ensures off / 512 + DivCeil(n + off % 512, 512) <= s
  {
    DivCeilLeast(n + off % 512, 512);
  }

  lemma BlockSectors(geo: Geometry, b: nat)
    requires GeoOk(geo)
    ensures geo.blockSize == geo.blockSize / 512 * 512
    ensures BlockStart(geo, b) == (geo.startLba + b * (geo.blockSize / 512)) * 512
  {
    var s := 2 * (geo.blockSize / 1024);
    DivModUnique(geo.blockSize, 512, s, 0);
    Regroup(b, s);
  }

  lemma Regroup(b: nat, s: nat)
    ensures b * (s * 512) == b * s * 512
  {
  }

  /** An access inside one block of the volume is within the device's reach. */
  lemma BlockReachable(geo: Geometry, size: nat, b: nat, blocks: nat, off: nat, n: nat)
    requires GeoOk(geo) && b < blocks && BlockStart(geo, blocks) <= size && BlockStart(geo, blocks) <= BYTE_LIMIT
    requires 0 < n && off + n <= geo.blockSize && FitsBounce(off, n)
    ensures Reachable(size, BlockStart(geo, b) + off, n)
    ensures BlockStart(geo, b) + off < BYTE_LIMIT
  {
    BlockSectors(geo, b);
    BlocksApart(geo, b, blocks) by { assert b < blocks; }
    var k, s := geo.startLba + b * (geo.blockSize / 512), geo.blockSize / 512;
    SectorSplit(k, off);
    SectorsEnd(off, n, s);
    UnitsReach(geo, size, b, blocks);
  }

  lemma UnitsReach(geo: Geometry, size: nat, b: nat, blocks: nat)
    requires b < blocks && BlockStart(geo, blocks) <= size
    ensures BlockStart(geo, b) + geo.blockSize <= size
  {
    BlocksApart(geo, b, blocks);
  }

  /** A byte address past the start of a block, as a block and an offset in it. */
  lemma ByteInBlock(geo: Geometry, b: nat, x: nat)
    requires GeoOk(geo)
    ensures BlockStart(geo, b) + x == BlockStart(geo, b + x / geo.blockSize) + x % geo.blockSize
  {
    var size, q := geo.blockSize, x / geo.blockSize;
    assert x == size * q + x % size;
    MulDist(size, b, q);
  }

  lemma TransferableWord(at: nat, n: nat)
    requires Transferable(at, n)
    ensures at < BYTE_LIMIT
  {
  }

  lemma HeldSized(disk: seq<byte>, geo: Geometry, vol: Volume)
    requires GeoOk(geo) && Holds(disk, geo, vol)
    ensures Sized(geo, vol)
  {
  }

  lemma BlockWrite(disk: seq<byte>, geo: Geometry, vol: Volume, b: nat, off: nat, data: seq<byte>)
    requires Sized(geo, vol) && Holds(disk, geo, vol) && b < |vol| && off + |data| <= geo.blockSize
    ensures BlockStart(geo, b) + off + |data| <= |disk|
    ensures |vol[b]| == geo.blockSize && Sized(geo, vol[b := Splice(vol[b], off, data)])
    ensures Holds(Splice(disk, BlockStart(geo, b) + off, data), geo, vol[b := Splice(vol[b], off, data)])
  {
    WriteInBlock(disk, geo, vol, b, off, data);
  }

  /** The fields of the superblock the kernel uses; `blockSize` is a shift. */
  datatype Superblock = Superblock(
    blockCnt: u32, unallocatedBlocks: u32, unallocatedInodes: u32,
    blockSize: u32, blocksPerGroup: u32, inodesPerGroup: u32)

  function GeometryOf(startingLba: nat, sb: Superblock): Geometry
    requires sb.blocksPerGroup > 0
  {
    Geometry(startingLba, 1024 * Pow2(sb.blockSize), DivCeil(sb.blockCnt, sb.blocksPerGroup), sb.blocksPerGroup, sb.inodesPerGroup)
  }

  /** Blocks are 1024 bytes shifted left, and the groups are the least number that hold all the blocks. */
  lemma GeometryIs(startingLba: nat, sb: Superblock)
    requires sb.blocksPerGroup > 0
    ensures var geo := GeometryOf(startingLba, sb);
      && geo.startLba == startingLba && geo.blocksPerGroup == sb.blocksPerGroup && geo.inodesPerGroup == sb.inodesPerGroup
      && geo.blockSize == Pow2(10 + sb.blockSize)
      && geo.groups * sb.blocksPerGroup >= sb.blockCnt && (geo.groups > 0 ==> (geo.groups - 1) * sb.blocksPerGroup < sb.blockCnt)
  {
    DivCeilLeast(sb.blockCnt, sb.blocksPerGroup);
    Shifted(sb.blockSize);
    if sb.blockCnt == 0 {
      DivModUnique(sb.blocksPerGroup - 1, sb.blocksPerGroup, 0, sb.blocksPerGroup - 1);
    }
  }

  lemma {:induction false} Shifted(k: nat)
    ensures Pow2(10 + k) == 1024 * Pow2(k)
  {
    if k == 0 {
      assert Pow2(4) == 16 && Pow2(7) == 0x80;
      assert Pow2(10) == 8 * Pow2(7);
    } else {
      Shifted(k - 1);
    }
  }

  class Ext2Filesystem {
    const dev: AhciDevice
    const geo: Geometry
    /** The counters of the superblock read at mount; the kernel never lowers them. */
    const unallocatedBlocks: nat
    const unallocatedInodes: nat
    ghost const lay: Layout
    /** What the partition holds, block by block. */
    ghost var vol: Volume

    constructor (dev: AhciDevice, startingLba: nat, sb: Superblock, ghost lay: Layout, ghost vol: Volume)
      requires sb.blocksPerGroup > 0 && !dev.readFault && !dev.writeFault
      requires Holds(dev.disk[..], GeometryOf(startingLba, sb), vol) && FsOk(GeometryOf(startingLba, sb), vol, lay)
      requires BlockStart(GeometryOf(startingLba, sb), |vol|) <= BYTE_LIMIT
      ensures Valid() && this.dev == dev && State() == Fs(GeometryOf(startingLba, sb), lay, vol)
      ensures unallocatedBlocks == sb.unallocatedBlocks && unallocatedInodes == sb.unallocatedInodes
    {
      this.dev := dev;
      geo := GeometryOf(startingLba, sb);
      unallocatedBlocks := sb.unallocatedBlocks;
      unallocatedInodes := sb.unallocatedInodes;
      this.lay := lay;
      this.vol := vol;
    }

    /** The device works and its disk holds `vol`, all of it in reach of 48-bit sector numbers. */
    ghost predicate Mounted()
      reads this, dev, dev.disk
    {
      && GeoOk(geo) && Sized(geo, vol) && Holds(dev.disk[..], geo, vol) && !dev.readFault && !dev.writeFault
      && BlockStart(geo, |vol|) <= dev.disk.Length && BlockStart(geo, |vol|) <= BYTE_LIMIT
    }

    ghost function State(): Fs
      reads this
    {
      Fs(geo, lay, vol)
    }

    ghost predicate Valid()
      reads this, dev, dev.disk
    {
      Mounted() && Ok(State())
    }

    ghost predicate InBlock(b: nat, off: nat, n: nat)
      reads this
    {
      b < |vol| && 0 < n && off + n <= geo.blockSize && FitsBounce(off, n)
    }

    /** `ahci::read(..).unwrap()`; `b` and `off` say which block the byte address falls in. */
    method ReadAt(at: nat, n: nat, buffer: array<byte>, ghost b: nat, ghost off: nat)
      requires Mounted() && InBlock(b, off, n) && at == BlockStart(geo, b) + off
      requires n <= buffer.Length && buffer != dev.disk
      modifies dev.fis, dev.prdt, buffer
      ensures Mounted()
      ensures buffer[..] == Splice(old(buffer[..]), 0, vol[b][off..off + n])
    {
      BlockReachable(geo, dev.disk.Length, b, |vol|, off, n);
      ReadInBlock(dev.disk[..], geo, vol, b, off, n);
      var _ := dev.Read(at, n, buffer);
    }

    /** `ahci::write(..).unwrap()`. */
    method WriteAt(at: nat, n: nat, buffer: array<byte>, ghost b: nat, ghost off: nat)
      requires Mounted() && InBlock(b, off, n) && at == BlockStart(geo, b) + off
      requires n <= buffer.Length && buffer != dev.disk
      modifies dev.fis, dev.prdt, dev.disk, this`vol
      ensures Mounted()
      ensures vol == old(vol)[b := Splice(old(vol)[b], off, buffer[..n])]
    {
      hide Holds, Sized, Splice, GeoOk, Reachable, BlockStart, FitsBounce, Sectors;
      BlockReachable(geo, dev.disk.Length, b, |vol|, off, n);
      BlockWrite(dev.disk[..], geo, vol, b, off, buffer[..n]);
      var _ := dev.Write(at, n, buffer);
      vol := vol[b := Splice(vol[b], off, buffer[..n])];
    }

    /** `ahci::write` at any byte, inside a block or not: the volume is what the disk then holds; `false` is `Err`, on sectors that do not exist. */
    method WriteRaw(at: nat, n: nat, buffer: array<byte>) returns (ok: bool)
      requires Mounted() && Transferable(at, n) && n <= buffer.Length && buffer != dev.disk
      modifies dev.fis, dev.prdt, dev.disk, this`vol
      ensures Mounted() && |vol| == |old(vol)|
      ensures ok == WithinDisk(dev.disk.Length, at, n) && (ok ==> at + n <= dev.disk.Length)
      ensures dev.disk[..] == if ok then Splice(old(dev.disk[..]), at, buffer[..n]) else old(dev.disk[..])
      ensures vol == VolumeOn(dev.disk[..], geo, |old(vol)|)
    {
      TransferableWord(at, n);
      hide Holds, Splice, GeoOk, Transferable, WithinDisk, BlockStart;
      var r := dev.Write(at, n, buffer);
      ok := r.Some?;
      vol := VolumeOn(dev.disk[..], geo, |vol|);
      VolumeOnHolds(dev.disk[..], geo, |vol|);
      HeldSized(dev.disk[..], geo, vol);
    }

    /** A record read into memory of its own. */
    method ReadRecord(at: nat, n: nat, ghost b: nat, ghost off: nat) returns (data: seq<byte>)
      requires Mounted() && InBlock(b, off, n) && at == BlockStart(geo, b) + off
      modifies dev.fis, dev.prdt
      ensures Mounted()
      ensures |data| == n && data == vol[b][off..off + n]
    {
      var buffer := new byte[n](_ => 0);
      ReadAt(at, n, buffer, b, off);
      data := buffer[..];
    }

    method WriteRecord(at: nat, data: seq<byte>, ghost b: nat, ghost off: nat)
      requires Mounted() && InBlock(b, off, |data|) && at == BlockStart(geo, b) + off
      modifies dev.fis, dev.prdt, dev.disk, this`vol
      ensures Mounted()
      ensures vol == old(vol)[b := Splice(old(vol)[b], off, data)]
    {
      var buffer := new byte[|data|](i requires 0 <= i < |data| => data[i]);
      assert buffer[..|data|] == data;
      WriteAt(at, |data|, buffer, b, off);
    }

    /** `Ext2Filesystem::alloc_block`. */
    method AllocBlock() returns (r: Option<nat>)
      requires Valid()
      modifies `vol, dev.disk, dev.fis, dev.prdt
      ensures Valid()
      ensures unallocatedBlocks == 0 ==> r == None && vol == old(vol)
      ensures unallocatedBlocks > 0 ==>
        match Ext2Alloc.AllocBlock(geo, old(vol), lay)
        case None => r == None && vol == old(vol)
        case Some((vol', nr)) => r == Some(nr) && vol == vol'
    {
      hide GroupTake, TakeMany;
      if unallocatedBlocks == 0 {
        return None;
      }
      for bg := 0 to geo.groups
        invariant Valid() && vol == old(vol)
        invariant FsTake(geo, vol, lay, OfBlocks, 0) == FsTake(geo, vol, lay, OfBlocks, bg)
      {
        TakeOne(geo, vol, lay, OfBlocks, bg);
        CounterStep(geo, vol, lay, OfBlocks, bg);
        var group := new BlockGroup.Get(this, bg);
        var blocks := group.AllocBlock(1);
        if blocks.Some? {
          return Some(blocks.value[0]);
        }
      }
      return None;
    }

    /** `Ext2Filesystem::alloc_inode`. */
    method AllocInode() returns (r: Option<nat>)
      requires Valid()
      modifies `vol, dev.disk, dev.fis, dev.prdt
      ensures Valid()
      ensures unallocatedInodes == 0 ==> r == None && vol == old(vol)
      ensures unallocatedInodes > 0 ==>
        match FsTake(geo, old(vol), lay, OfInodes, 0)
        case None => r == None && vol == old(vol)
        case Some((vol', g, i)) => r == Some(Number(geo, OfInodes, g, i)) && vol == vol'
    {
      hide GroupTake;
      if unallocatedInodes == 0 {
        return None;
      }
      for bg := 0 to geo.groups
        invariant Valid() && vol == old(vol)
        invariant FsTake(geo, vol, lay, OfInodes, 0) == FsTake(geo, vol, lay, OfInodes, bg)
      {
        var group := new BlockGroup.Get(this, bg);
        var inode := group.AllocInode();
        if inode.Some? {
          return inode;
        }
      }
      return None;
    }
  }

  lemma DescAddress(geo: Geometry, g: nat)
    requires GeoOk(geo)
    ensures geo.startLba * 512 + (if geo.blockSize > 1024 then 1 else 2) * geo.blockSize + g * DESC_SIZE ==
      BlockStart(geo, DescBlock(geo, g)) + DescOffset(geo, g)
  {
    ByteInBlock(geo, if geo.blockSize > 1024 then 1 else 2, g * DESC_SIZE);
  }

  /** A descriptor is always within reach of one transfer. */
  lemma DescInBlock(geo: Geometry, g: nat)
    requires GeoOk(geo)
    ensures DescOffset(geo, g) + DESC_SIZE <= geo.blockSize && FitsBounce(DescOffset(geo, g), DESC_SIZE)
  {
    DescFits(geo, g);
  }

  lemma WholeBlock(geo: Geometry, m: nat)
    requires GeoOk(geo)
    ensures geo.blockSize > 0 && FitsBounce(0, geo.blockSize)
    ensures geo.startLba * 512 + m * geo.blockSize == BlockStart(geo, m) + 0
  {
    RoundUpLeast(geo.blockSize, 4096);
  }

  function Numbers(geo: Geometry, k: Kind, g: nat, taken: seq<nat>): (r: seq<nat>)
    ensures |r| == |taken|
  {
    seq(|taken|, a requires 0 <= a < |taken| => Number(geo, k, g, taken[a]))
  }

  lemma {:induction false} FirstClearFrom(bits: seq<bool>, from: nat, to: nat)
    requires from <= to <= |bits| && forall j :: from <= j < to ==> bits[j]
    ensures FirstClear(bits, from) == FirstClear(bits, to)
    decreases |bits| - from
  {
    if from < to {
      FirstClearFrom(bits, from + 1, to);
    }
  }

  lemma AfterSet(bytes: seq<byte>, i: nat)
    requires FirstClear(BitsOf(bytes), 0) == Some(i)
    ensures FirstClear(BitsOf(SetBit(bytes, i)), 0) == FirstClear(BitsOf(SetBit(bytes, i)), i + 1)
  {
    FirstClearFrom(BitsOf(SetBit(bytes, i)), 0, i + 1);
  }

  /** A number as the kernel computes it, in 32 bits. */
  function Number32(geo: Geometry, k: Kind, g: nat, i: nat): (r: u32)
    ensures Number(geo, k, g, i) < 0x1_0000_0000 ==> r == Number(geo, k, g, i)
  {
    Number(geo, k, g, i) % 0x1_0000_0000
  }

  lemma NumbersSnoc(geo: Geometry, k: Kind, g: nat, taken: seq<nat>, i: nat)
    ensures Numbers(geo, k, g, taken + [i]) == Numbers(geo, k, g, taken) + [Number(geo, k, g, i)]
  {
  }

  class BlockGroup {
    const fs: Ext2Filesystem
    const index: nat
    var raw: seq<byte>

    ghost predicate Valid()
      reads this, fs, fs.dev, fs.dev.disk
    {
      && fs.Valid() && index < fs.geo.groups
      && DescBlock(fs.geo, index) < |fs.vol| && raw == Desc(fs.geo, fs.vol, index)
    }

    constructor Get(fs: Ext2Filesystem, index: nat)
      requires fs.Valid() && index < fs.geo.groups
      modifies fs.dev.fis, fs.dev.prdt
      ensures Valid() && this.fs == fs && this.index == index
    {
      this.fs := fs;
      this.index := index;
      raw := [];
      new;
      ScanStart(fs.geo, fs.vol, fs.lay, OfBlocks, index);
      DescInBlock(fs.geo, index);
      DescAddress(fs.geo, index);
      var bgdtBlock := if fs.geo.blockSize > 1024 then 1 else 2;
      raw := fs.ReadRecord(fs.geo.startLba * 512 + bgdtBlock * fs.geo.blockSize + index * DESC_SIZE, DESC_SIZE,
                           DescBlock(fs.geo, index), DescOffset(fs.geo, index));
    }

    method Flush()
      requires fs.Mounted() && |raw| == DESC_SIZE && DescBlock(fs.geo, index) < |fs.vol|
      modifies fs`vol, fs.dev.disk, fs.dev.fis, fs.dev.prdt
      ensures fs.Mounted() && fs.vol == PutDesc(fs.geo, old(fs.vol), index, raw)
    {
      DescInBlock(fs.geo, index);
      DescAddress(fs.geo, index);
      var bgdtBlock := if fs.geo.blockSize > 1024 then 1 else 2;
      fs.WriteRecord(fs.geo.startLba * 512 + bgdtBlock * fs.geo.blockSize + index * DESC_SIZE, raw,
                     DescBlock(fs.geo, index), DescOffset(fs.geo, index));
    }

    /** A bitmap's block, read into memory. */
    method LoadMap(k: Kind) returns (bitmap: Bitmap)
      requires Valid()
      modifies fs.dev.fis, fs.dev.prdt
      ensures Valid() && fresh(bitmap) && fresh(bitmap.data)
      ensures MapAt(fs.lay, k, index) < |fs.vol| && bitmap.data[..] == fs.vol[MapAt(fs.lay, k, index)]
    {
      ScanStart(fs.geo, fs.vol, fs.lay, k, index);
      var m := U32(raw, MapField(k));
      WholeBlock(fs.geo, m);
      bitmap := new Bitmap(fs.geo.blockSize);
      fs.ReadAt(fs.geo.startLba * 512 + m * fs.geo.blockSize, fs.geo.blockSize, bitmap.data, m, 0);
    }

    /** Write the bitmap, then the descriptor. */
    method StoreMap(k: Kind, bitmap: Bitmap)
      requires fs.Mounted() && |raw| == DESC_SIZE && DescBlock(fs.geo, index) < |fs.vol| && U32(raw, MapField(k)) < |fs.vol|
      requires bitmap.data.Length == fs.geo.blockSize && bitmap.data != fs.dev.disk
      modifies fs`vol, fs.dev.disk, fs.dev.fis, fs.dev.prdt
      ensures fs.Mounted()
      ensures fs.vol == WrittenOut(fs.geo, old(fs.vol), U32(raw, MapField(k)), bitmap.data[..], index, raw)
    {
      var m := U32(raw, MapField(k));
      WholeBlock(fs.geo, m);
      fs.WriteAt(fs.geo.startLba * 512 + m * fs.geo.blockSize, fs.geo.blockSize, bitmap.data, m, 0);
      assert Splice(old(fs.vol)[m], 0, bitmap.data[..fs.geo.blockSize]) == bitmap.data[..];
      Flush();
    }

    /** The loop of `alloc_block`: it stops at `cnt` blocks or at the end of the bitmap. */
    method TakeBlocks(bitmap: Bitmap, cnt: nat) returns (blocks: seq<nat>, ghost taken: seq<nat>)
      requires Valid() && bitmap.data != fs.dev.disk
      requires MapAt(fs.lay, OfBlocks, index) < |fs.vol| && bitmap.data[..] == fs.vol[MapAt(fs.lay, OfBlocks, index)]
      modifies `raw, bitmap.data
      ensures Scanned(fs.geo, fs.vol, fs.lay, OfBlocks, index, bitmap.data[..], raw, taken)
      ensures blocks == Numbers(fs.geo, OfBlocks, index, taken)
      ensures cnt > 0 ==> |taken| <= cnt
      ensures |taken| == cnt || |taken| == U16(old(raw), CountField(OfBlocks))
    {
      hide Scanned, Lowered, SetBit, BitsOf, Numbers;
      ScanStart(fs.geo, fs.vol, fs.lay, OfBlocks, index);
      taken, blocks := [], [];
      var found := 0;
      for i := 0 to fs.geo.blockSize * 8
        invariant |raw| == DESC_SIZE && bitmap.data.Length == fs.geo.blockSize
        invariant Scanned(fs.geo, fs.vol, fs.lay, OfBlocks, index, bitmap.data[..], raw, taken)
        invariant FirstClear(BitsOf(bitmap.data[..]), 0) == FirstClear(BitsOf(bitmap.data[..]), i)
        invariant blocks == Numbers(fs.geo, OfBlocks, index, taken) && found == |taken|
        invariant cnt > 0 ==> found < cnt
      {
        if !bitmap.IsSet(i) {
          ScanStep(fs.geo, fs.vol, fs.lay, OfBlocks, index, bitmap.data[..], raw, taken, i);
          AfterSet(bitmap.data[..], i);
          NumbersSnoc(fs.geo, OfBlocks, index, taken, i);
          bitmap.Set(i);
          blocks := blocks + [Number32(fs.geo, OfBlocks, index, i)];
          found := found + 1;
          assert U16(raw, CountField(OfBlocks)) > 0;
          raw := Lowered(raw, OfBlocks);
          taken := taken + [i];
          if found == cnt {
            return;
          }
        }
      }
      ScanEnd(fs.geo, fs.vol, fs.lay, OfBlocks, index, bitmap.data[..], raw, taken);
    }

    /**
      The `cnt` lowest clear bits, as block numbers, exactly when the counter admits them;
      the volume is then that of `cnt` single allocations. Otherwise the disk is untouched.
     */
    method AllocBlock(cnt: nat) returns (r: Option<seq<nat>>)
      requires Valid()
      modifies `raw, fs`vol, fs.dev.disk, fs.dev.fis, fs.dev.prdt
      ensures fs.Valid()
      ensures cnt > 0 ==> (r.Some? <==> cnt <= U16(old(raw), CountField(OfBlocks)))
      ensures r.Some? ==>
        var (vol', taken) := TakeMany(fs.geo, old(fs.vol), fs.lay, OfBlocks, index, cnt);
        Valid() && fs.vol == vol' && |taken| == cnt && r.value == Numbers(fs.geo, OfBlocks, index, taken)
      ensures r.None? ==> fs.vol == old(fs.vol) && fs.dev.disk[..] == old(fs.dev.disk[..])
    {
      hide BitsOf, Numbers, WrittenOut;
      if U16(raw, CountField(OfBlocks)) < cnt {
        return None;
      }
      var bitmap := LoadMap(OfBlocks);
      var blocks, taken := TakeBlocks(bitmap, cnt);
      if |blocks| != cnt {
        return None;
      }
      ScannedMap(fs.geo, fs.vol, fs.lay, OfBlocks, index, bitmap.data[..], raw, taken);
      StoreMap(OfBlocks, bitmap);
      return Some(blocks);
    }

    /** The lowest clear bit, as an inode number, exactly when the counter is not zero. */
    method AllocInode() returns (r: Option<nat>)
      requires Valid()
      modifies `raw, fs`vol, fs.dev.disk, fs.dev.fis, fs.dev.prdt
      ensures Valid()
      ensures match GroupTake(fs.geo, old(fs.vol), fs.lay, OfInodes, index)
              case None => r == None && fs.vol == old(fs.vol) && fs.dev.disk[..] == old(fs.dev.disk[..])
              case Some((vol', i)) => fs.vol == vol' && r == Some(Number(fs.geo, OfInodes, index, i))
    {
      hide BitsOf, WrittenOut, Take, Lowered;
      ScanStart(fs.geo, fs.vol, fs.lay, OfInodes, index);
      TakeOne(fs.geo, fs.vol, fs.lay, OfInodes, index);
      if U16(raw, CountField(OfInodes)) == 0 {
        return None;
      }
      var bitmap := LoadMap(OfInodes);
      for i := 0 to fs.geo.blockSize * 8
        invariant Valid() && fs.vol == old(fs.vol) && fs.dev.disk[..] == old(fs.dev.disk[..])
        invariant bitmap.data[..] == fs.vol[MapAt(fs.lay, OfInodes, index)]
        invariant FirstClear(BitsOf(bitmap.data[..]), 0) == FirstClear(BitsOf(bitmap.data[..]), i)
      {
        if !bitmap.IsSet(i) {
          ScanStep(fs.geo, fs.vol, fs.lay, OfInodes, index, bitmap.data[..], raw, [], i);
          bitmap.Set(i);
          assert U16(raw, CountField(OfInodes)) > 0;
          raw := Lowered(raw, OfInodes);
          ScannedMap(fs.geo, fs.vol, fs.lay, OfInodes, index, bitmap.data[..], raw, [i]);
          StoreMap(OfInodes, bitmap);
          return Some(Number32(fs.geo, OfInodes, index, i));
        }
      }
      return None;
    }
  }
}
