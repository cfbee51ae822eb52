/** Block and inode allocation over the group bitmaps of src/fs/ext2.rs. */
module Ext2Alloc {
  import opened Arith
  import opened Bits
  import opened Bitmaps
  import opened Options
  import opened Disks
  import opened SlabSpec
  import opened Ext2Layout

  const DESC_SIZE: nat := 32
  const INODE_SIZE: nat := 128

  // -------- where things are --------

  function DescBlock(geo: Geometry, g: nat): nat
    requires geo.blockSize > 0
  {
    (if geo.blockSize > 1024 then 1 else 2) + g * DESC_SIZE / geo.blockSize
  }

  function DescOffset(geo: Geometry, g: nat): nat
    requires geo.blockSize > 0
  {
    g * DESC_SIZE % geo.blockSize
  }

  /** Records of a size dividing the block size never straddle a block. */
  lemma NoStraddle(size: nat, record: nat, k: nat)
    requires record > 0 && size > 0 && size % record == 0
    ensures k * record % size + record <= size
    ensures k * record % size % record == 0
  {
    var q, r, m := k * record / size, k * record % size, size / record;
    assert size == record * m;
    assert k * record == size * q + r;
    var j := k - m * q;
    assert r == record * j by {
      assert size * q == record * (m * q);
      MulDist(record, k, -(m * q));
    }
    if j >= m {
      MulMono(record, m, j);
      assert false;
    }
    if j < 0 {
      MulMono(record, j, -1);
      assert false;
    }
    MulMono(record, j + 1, m);
    MulDist(record, j, 1);
    DivModUnique(r, record, j, 0);
  }

  /** A block holds a whole number of descriptors, and of inodes. */
  lemma WholeRecords(size: nat)
    requires size % 1024 == 0
    ensures size % DESC_SIZE == 0 && size % INODE_SIZE == 0
  {
    var q := size / 1024;
    DivModUnique(size, DESC_SIZE, 32 * q, 0);
    DivModUnique(size, INODE_SIZE, 8 * q, 0);
  }

  lemma DescFits(geo: Geometry, g: nat)
    requires GeoOk(geo)
    ensures DescOffset(geo, g) + DESC_SIZE <= geo.blockSize
  {
    WholeRecords(geo.blockSize);
    NoStraddle(geo.blockSize, DESC_SIZE, g);
  }

  /** The two kinds of bitmap a group has. */
  datatype Kind = OfBlocks | OfInodes

  function MapField(k: Kind): nat { if k.OfBlocks? then 0 else 4 }
  function CountField(k: Kind): nat { if k.OfBlocks? then 12 else 14 }
  function PerGroup(geo: Geometry, k: Kind): nat { if k.OfBlocks? then geo.blocksPerGroup else geo.inodesPerGroup }

  /** What each block of the volume is for. */
  datatype Role = Data | Reserved | DescTable | BitmapOf(k: Kind, g: nat) | InodeTable(g: nat)

  datatype Layout = Layout(roles: seq<Role>, blockMaps: seq<nat>, inodeMaps: seq<nat>, inodeTables: seq<nat>)

  function MapAt(lay: Layout, k: Kind, g: nat): nat
    requires g < |lay.blockMaps| && g < |lay.inodeMaps|
  {
    if k.OfBlocks? then lay.blockMaps[g] else lay.inodeMaps[g]
  }

  ghost predicate Sized(geo: Geometry, vol: Volume) {
    GeoOk(geo) && forall b :: 0 <= b < |vol| ==> |vol[b]| == geo.blockSize
  }

  /** The raw descriptor of group `g`. */
  function Desc(geo: Geometry, vol: Volume, g: nat): (r: seq<byte>)
    requires Sized(geo, vol) && DescBlock(geo, g) < |vol|
    ensures |r| == DESC_SIZE
  {
    DescFits(geo, g);
    vol[DescBlock(geo, g)][DescOffset(geo, g)..DescOffset(geo, g) + DESC_SIZE]
  }

  function TableBlocks(geo: Geometry): nat
    requires geo.blockSize > 0
  {
    DivCeil(geo.inodesPerGroup * INODE_SIZE, geo.blockSize)
  }

  ghost predicate TablePlaced(geo: Geometry, lay: Layout, g: nat)
    requires geo.blockSize > 0 && g < |lay.inodeTables|
  {
    forall j :: lay.inodeTables[g] <= j < lay.inodeTables[g] + TableBlocks(geo) ==>
      j < |lay.roles| && lay.roles[j] == InodeTable(g)
  }

  ghost predicate GroupPlaced(geo: Geometry, vol: Volume, lay: Layout, g: nat)
    requires Sized(geo, vol) && |lay.roles| == |vol|
    requires g < |lay.blockMaps| && g < |lay.inodeMaps| && g < |lay.inodeTables|
  {
    && DescBlock(geo, g) < |vol| && lay.roles[DescBlock(geo, g)] == DescTable
    && (forall k :: MapAt(lay, k, g) < |vol| && lay.roles[MapAt(lay, k, g)] == BitmapOf(k, g)
          && U32(Desc(geo, vol, g), MapField(k)) == MapAt(lay, k, g))
    && U32(Desc(geo, vol, g), 8) == lay.inodeTables[g] && TablePlaced(geo, lay, g)
  }

  /** Every structure lies where its descriptor says; having one role per block keeps them apart. */
  ghost predicate Placed(geo: Geometry, vol: Volume, lay: Layout) {
    && Sized(geo, vol) && |lay.roles| == |vol| > 0 && lay.roles[0] == Reserved
    && |lay.blockMaps| == |lay.inodeMaps| == |lay.inodeTables| == geo.groups
    && forall g :: 0 <= g < geo.groups ==> GroupPlaced(geo, vol, lay, g)
  }

  function MapBits(geo: Geometry, vol: Volume, lay: Layout, k: Kind, g: nat): (r: seq<bool>)
    requires Placed(geo, vol, lay) && g < geo.groups
    ensures |r| == 8 * geo.blockSize
  {
    assert GroupPlaced(geo, vol, lay, g);
    BitsOf(vol[MapAt(lay, k, g)])
  }

  predicate FreeBit(geo: Geometry, vol: Volume, lay: Layout, k: Kind, g: nat, i: nat)
    requires Placed(geo, vol, lay)
  {
    g < geo.groups && i < 8 * geo.blockSize && !MapBits(geo, vol, lay, k, g)[i]
  }

  /** A clear bit names a data block of the volume, or an inode of the group: metadata and padding are marked used. */
  ghost predicate BitMeans(geo: Geometry, vol: Volume, lay: Layout, k: Kind, g: nat, i: nat)
    requires Placed(geo, vol, lay)
  {
    FreeBit(geo, vol, lay, k, g, i) ==>
      && i < PerGroup(geo, k)
      && (k.OfBlocks? ==> g * geo.blocksPerGroup + i < |vol| && lay.roles[g * geo.blocksPerGroup + i] == Data)
  }

  /** The counter in the descriptor is the number of clear bits. */
  ghost predicate Counted(geo: Geometry, vol: Volume, lay: Layout, k: Kind, g: nat)
    requires Placed(geo, vol, lay) && g < geo.groups
  {
    && GroupPlaced(geo, vol, lay, g)
    && U16(Desc(geo, vol, g), CountField(k)) ==
         8 * geo.blockSize - CountSet(MapBits(geo, vol, lay, k, g), 8 * geo.blockSize)
  }

  ghost predicate FsOk(geo: Geometry, vol: Volume, lay: Layout) {
    && Placed(geo, vol, lay)
    && (forall k, g: nat, i: nat :: BitMeans(geo, vol, lay, k, g, i))
    && (forall k, g :: 0 <= g < geo.groups ==> Counted(geo, vol, lay, k, g))
  }

  // -------- one group --------

  /** A descriptor with one of its counters lowered. */
  function Lowered(raw: seq<byte>, k: Kind): (r: seq<byte>)
    requires |raw| == DESC_SIZE
    ensures |r| == DESC_SIZE
    ensures forall j :: 0 <= j < DESC_SIZE && !(CountField(k) <= j < CountField(k) + 2) ==> r[j] == raw[j]
  {
    var count := U16(raw, CountField(k));
    if count == 0 then raw else Splice(raw, CountField(k), Le16(count - 1))
  }

  /** `BlockGroup::flush`. */
  function PutDesc(geo: Geometry, vol: Volume, g: nat, raw: seq<byte>): (r: Volume)
    requires Sized(geo, vol) && DescBlock(geo, g) < |vol| && |raw| == DESC_SIZE
    ensures Sized(geo, r)
  {
    DescFits(geo, g);
    vol[DescBlock(geo, g) := Splice(vol[DescBlock(geo, g)], DescOffset(geo, g), raw)]
  }

  /** The volume after bit `i` of a map is set and its counter lowered. */
  function Take(geo: Geometry, vol: Volume, k: Kind, g: nat, m: nat, i: nat): (r: Volume)
    requires Sized(geo, vol) && DescBlock(geo, g) < |vol| && m < |vol| && i < 8 * geo.blockSize
    requires U16(Desc(geo, vol, g), CountField(k)) > 0
  {
    DescFits(geo, g);
    PutDesc(geo, vol[m := SetBit(vol[m], i)], g, Lowered(Desc(geo, vol, g), k))
  }

  /** `alloc_block(1)` or `alloc_inode` on one group: the lowest clear bit, if the counter admits one. */
  function GroupTake(geo: Geometry, vol: Volume, lay: Layout, k: Kind, g: nat): (r: Option<(Volume, nat)>)
    requires Placed(geo, vol, lay) && g < geo.groups
  {
    assert GroupPlaced(geo, vol, lay, g);
    if U16(Desc(geo, vol, g), CountField(k)) == 0 then None
    else
      match FirstClear(MapBits(geo, vol, lay, k, g), 0)
      case None => None
      case Some(i) => Some((Take(geo, vol, k, g, MapAt(lay, k, g), i), i))
  }

  // -------- what taking a bit changes --------

  datatype Taking = Taking(geo: Geometry, vol: Volume, lay: Layout, k: Kind, g: nat, i: nat)

  ghost predicate CanTake(t: Taking) {
    FsOk(t.geo, t.vol, t.lay) && FreeBit(t.geo, t.vol, t.lay, t.k, t.g, t.i)
  }

  lemma {:induction false} SomeClearCount(bits: seq<bool>, n: nat, i: nat)
    requires i < n <= |bits| && !bits[i]
    ensures CountSet(bits, n) < n
  {
    if i < n - 1 {
      SomeClearCount(bits, n - 1, i);
    }
  }

  lemma CounterPositive(t: Taking)
    requires CanTake(t)
    ensures GroupPlaced(t.geo, t.vol, t.lay, t.g)
    ensures U16(Desc(t.geo, t.vol, t.g), CountField(t.k)) > 0
  {
    assert Counted(t.geo, t.vol, t.lay, t.k, t.g);
    SomeClearCount(MapBits(t.geo, t.vol, t.lay, t.k, t.g), 8 * t.geo.blockSize, t.i);
  }

  ghost function After(t: Taking): Volume
    requires CanTake(t)
  {
    CounterPositive(t);
    Take(t.geo, t.vol, t.k, t.g, MapAt(t.lay, t.k, t.g), t.i)
  }

  /** Only the bitmap's block and the descriptor's block differ. */
  lemma AfterBlocks(t: Taking, b: nat)
    requires CanTake(t) && b < |t.vol|
    ensures |After(t)| == |t.vol| && |After(t)[b]| == t.geo.blockSize
    ensures t.lay.roles[b] != DescTable && t.lay.roles[b] != BitmapOf(t.k, t.g) ==> After(t)[b] == t.vol[b]
    ensures b == MapAt(t.lay, t.k, t.g) ==> After(t)[b] == SetBit(t.vol[b], t.i)
  {
    CounterPositive(t);
    DescFits(t.geo, t.g);
    assert GroupPlaced(t.geo, t.vol, t.lay, t.g);
  }

  /** Descriptors of different groups do not overlap. */
  lemma DescsApart(geo: Geometry, g: nat, h: nat)
    requires GeoOk(geo) && g != h && DescBlock(geo, g) == DescBlock(geo, h)
    ensures DescOffset(geo, g) + DESC_SIZE <= DescOffset(geo, h) || DescOffset(geo, h) + DESC_SIZE <= DescOffset(geo, g)
  {
    var q := g * DESC_SIZE / geo.blockSize;
    assert g * DESC_SIZE == geo.blockSize * q + DescOffset(geo, g);
    assert h * DESC_SIZE == geo.blockSize * q + DescOffset(geo, h);
  }

  lemma DescOfPut(geo: Geometry, vol: Volume, g: nat, raw: seq<byte>, h: nat)
    requires Sized(geo, vol) && DescBlock(geo, g) < |vol| && DescBlock(geo, h) < |vol| && |raw| == DESC_SIZE
    ensures Desc(geo, PutDesc(geo, vol, g, raw), h) == if h == g then raw else Desc(geo, vol, h)
  {
    DescFits(geo, h);
    DescFits(geo, g);
    if h != g && DescBlock(geo, h) == DescBlock(geo, g) {
      DescsApart(geo, h, g);
    }
  }

  lemma AfterDesc(t: Taking, h: nat)
    requires CanTake(t) && h < t.geo.groups
    ensures Sized(t.geo, After(t)) && |After(t)| == |t.vol| && DescBlock(t.geo, h) < |t.vol|
    ensures Desc(t.geo, After(t), h) ==
      if h == t.g then Lowered(Desc(t.geo, t.vol, h), t.k) else Desc(t.geo, t.vol, h)
  {
    CounterPositive(t);
    assert GroupPlaced(t.geo, t.vol, t.lay, h);
    var m := MapAt(t.lay, t.k, t.g);
    var vol1 := t.vol[m := SetBit(t.vol[m], t.i)];
    assert m != DescBlock(t.geo, h) && m != DescBlock(t.geo, t.g);
    DescOfPut(t.geo, vol1, t.g, Lowered(Desc(t.geo, t.vol, t.g), t.k), h);
  }

  /** An allocation changes two bytes of one descriptor: 12 and 13 for a block, 14 and 15 for an inode. */
  lemma AfterDescBytes(t: Taking, h: nat, j: nat)
    requires CanTake(t) && h < t.geo.groups && j < 32
    ensures Sized(t.geo, After(t)) && |After(t)| == |t.vol| && DescBlock(t.geo, h) < |t.vol|
    ensures Desc(t.geo, After(t), h)[j] == Desc(t.geo, t.vol, h)[j] ||
      (h == t.g && if t.k.OfBlocks? then j == 12 || j == 13 else j == 14 || j == 15)
  {
    hide BitMeans, Counted, GroupPlaced, After;
    AfterDesc(t, h);
  }

  /** Of the whole volume it changes those two bytes and the bit's byte of the bitmap. */
  lemma AfterBytes(t: Taking, b: nat, x: nat)
    requires CanTake(t) && b < |t.vol| && x < t.geo.blockSize
    ensures |After(t)| == |t.vol| && |After(t)[b]| == |t.vol[b]| == t.geo.blockSize
    ensures After(t)[b][x] == t.vol[b][x] || (b == MapAt(t.lay, t.k, t.g) && x == t.i / 8) || InCounter(t.geo, t.k, t.g, b, x)
  {
    hide BitMeans, Counted, GroupPlaced, FreeBit, PutDesc, Lowered, Desc, SetBit;
    TakingApart(t);
    CounterPositive(t);
    AfterBlocks(t, b);
    var m, raw := MapAt(t.lay, t.k, t.g), Desc(t.geo, t.vol, t.g);
    PutDescBytes(t.geo, t.vol[m := SetBit(t.vol[m], t.i)], t.g, Lowered(raw, t.k), b, x);
    DescBytes(t.geo, t.vol, t.g, x);
  }

  lemma TakingApart(t: Taking)
    requires CanTake(t)
    ensures t.g < t.geo.groups && t.i < 8 * t.geo.blockSize && MapAt(t.lay, t.k, t.g) < |t.vol| && DescBlock(t.geo, t.g) < |t.vol|
    ensures MapAt(t.lay, t.k, t.g) != DescBlock(t.geo, t.g) && t.lay.roles[MapAt(t.lay, t.k, t.g)] == BitmapOf(t.k, t.g)
  {
    assert GroupPlaced(t.geo, t.vol, t.lay, t.g);
  }

  lemma DescBytes(geo: Geometry, vol: Volume, g: nat, x: nat)
    requires Sized(geo, vol) && DescBlock(geo, g) < |vol| && x < geo.blockSize
    ensures DescOffset(geo, g) <= x < DescOffset(geo, g) + 32 ==> Desc(geo, vol, g)[x - DescOffset(geo, g)] == vol[DescBlock(geo, g)][x]
  {
    DescFits(geo, g);
  }

  /** `flush` of a descriptor changes its own 32 bytes and no other. */
  lemma PutDescBytes(geo: Geometry, vol: Volume, g: nat, raw: seq<byte>, b: nat, x: nat)
    requires Sized(geo, vol) && DescBlock(geo, g) < |vol| && |raw| == DESC_SIZE && b < |vol| && x < geo.blockSize
    ensures |PutDesc(geo, vol, g, raw)| == |vol| && |PutDesc(geo, vol, g, raw)[b]| == geo.blockSize
    ensures var o := DescOffset(geo, g);
      PutDesc(geo, vol, g, raw)[b][x] == if b == DescBlock(geo, g) && o <= x < o + 32 then raw[x - o] else vol[b][x]
  {
    DescFits(geo, g);
  }

  /** Byte `x` of block `b` belongs to the counter of free blocks, or of free inodes, of group `g`. */
  predicate InCounter(geo: Geometry, k: Kind, g: nat, b: nat, x: nat)
    requires geo.blockSize > 0
  {
    var c := DescOffset(geo, g) + if k.OfBlocks? then 12 else 14;
    b == DescBlock(geo, g) && c <= x < c + 2
  }

  /** Placement depends on the volume only through the pointers in the descriptor. */
  lemma PlacedByDesc(geo: Geometry, vol: Volume, vol': Volume, lay: Layout, g: nat)
    requires Placed(geo, vol, lay) && Sized(geo, vol') && |vol'| == |vol| && g < geo.groups
    requires DescBlock(geo, g) < |vol|
    requires forall f :: f == 0 || f == 4 || f == 8 ==> U32(Desc(geo, vol', g), f) == U32(Desc(geo, vol, g), f)
    ensures GroupPlaced(geo, vol', lay, g)
  {
    assert GroupPlaced(geo, vol, lay, g);
    var d, d' := Desc(geo, vol, g), Desc(geo, vol', g);
    assert U32(d', 0) == U32(d, 0) && U32(d', 4) == U32(d, 4) && U32(d', 8) == U32(d, 8);
  }

  lemma AfterPlaced(t: Taking)
    requires CanTake(t)
    ensures Placed(t.geo, After(t), t.lay)
  {
    AfterDesc(t, t.g);
    forall h | 0 <= h < t.geo.groups ensures GroupPlaced(t.geo, After(t), t.lay, h) {
      AfterDesc(t, h);
      CounterOverlay(Desc(t.geo, t.vol, h), t.k, t.k);
      PlacedByDesc(t.geo, t.vol, After(t), t.lay, h);
    }
  }

  lemma AfterBits(t: Taking, k: Kind, h: nat)
    requires CanTake(t) && h < t.geo.groups && Placed(t.geo, After(t), t.lay)
    ensures MapBits(t.geo, After(t), t.lay, k, h) ==
      if k == t.k && h == t.g then MapBits(t.geo, t.vol, t.lay, k, h)[t.i := true]
      else MapBits(t.geo, t.vol, t.lay, k, h)
  {
    assert GroupPlaced(t.geo, t.vol, t.lay, h) && GroupPlaced(t.geo, t.vol, t.lay, t.g);
    AfterBlocks(t, MapAt(t.lay, k, h));
  }

  lemma AfterFree(t: Taking, k: Kind, h: nat, j: nat)
    requires CanTake(t) && Placed(t.geo, After(t), t.lay)
    ensures FreeBit(t.geo, After(t), t.lay, k, h, j) <==>
      FreeBit(t.geo, t.vol, t.lay, k, h, j) && !(k == t.k && h == t.g && j == t.i)
  {
    hide BitMeans, Counted, GroupPlaced, After;
    if h < t.geo.groups {
      AfterBits(t, k, h);
    }
  }

  lemma AfterCounted(t: Taking, k: Kind, h: nat)
    requires CanTake(t) && h < t.geo.groups && Placed(t.geo, After(t), t.lay)
    ensures Counted(t.geo, After(t), t.lay, k, h)
  {
    AfterDesc(t, h);
    AfterBits(t, k, h);
    CounterPositive(t);
    assert Counted(t.geo, t.vol, t.lay, k, h) && GroupPlaced(t.geo, After(t), t.lay, h);
    var raw := Desc(t.geo, t.vol, h);
    if h == t.g {
      CounterOverlay(raw, t.k, k);
      if k == t.k {
        CountSetUpdate(MapBits(t.geo, t.vol, t.lay, k, h), 8 * t.geo.blockSize, t.i, true);
      }
    }
  }

  /** Lowering one counter of a descriptor leaves every other field as it was. */
  lemma CounterOverlay(raw: seq<byte>, k: Kind, k': Kind)
    requires |raw| == DESC_SIZE
    ensures var raw', count := Lowered(raw, k), U16(raw, CountField(k));
      && U16(raw', CountField(k')) == (if k == k' && count > 0 then count - 1 else U16(raw, CountField(k')))
      && U32(raw', 0) == U32(raw, 0) && U32(raw', 4) == U32(raw, 4) && U32(raw', 8) == U32(raw, 8)
  {
    if U16(raw, CountField(k)) > 0 {
      Le16RoundTrip(U16(raw, CountField(k)) - 1);
    }
  }

  /** Taking a free bit keeps the file system well formed. */
  lemma AfterOk(t: Taking)
    requires CanTake(t)
    ensures FsOk(t.geo, After(t), t.lay)
  {
    AfterPlaced(t);
    forall k, h, j ensures BitMeans(t.geo, After(t), t.lay, k, h, j) {
      AfterFree(t, k, h, j);
      assert BitMeans(t.geo, t.vol, t.lay, k, h, j);
    }
    forall k, h | 0 <= h < t.geo.groups ensures Counted(t.geo, After(t), t.lay, k, h) {
      AfterCounted(t, k, h);
    }
  }

  // -------- the whole file system --------

  /** The first group, from `g` on, that yields a bit. */
  function FsTake(geo: Geometry, vol: Volume, lay: Layout, k: Kind, g: nat): (r: Option<(Volume, nat, nat)>)
    requires Placed(geo, vol, lay)
    decreases geo.groups - g
  {
    if g >= geo.groups then None
    else
      match GroupTake(geo, vol, lay, k, g)
      case Some((vol', i)) => Some((vol', g, i))
      case None => FsTake(geo, vol, lay, k, g + 1)
  }

  /** The block or inode number the kernel makes of a group and a bit. */
  function Number(geo: Geometry, k: Kind, g: nat, i: nat): nat {
    if k.OfBlocks? then i + g * geo.blocksPerGroup else i + 1 + g * geo.inodesPerGroup
  }

  /** On counted maps a group yields its lowest clear bit exactly when it has one. */
  lemma GroupTakeIff(geo: Geometry, vol: Volume, lay: Layout, k: Kind, g: nat)
    requires FsOk(geo, vol, lay) && g < geo.groups
    ensures match GroupTake(geo, vol, lay, k, g)
            case None => forall i: nat :: !FreeBit(geo, vol, lay, k, g, i)
            case Some((vol', i)) =>
              && CanTake(Taking(geo, vol, lay, k, g, i)) && vol' == After(Taking(geo, vol, lay, k, g, i))
              && forall j: nat :: j < i ==> !FreeBit(geo, vol, lay, k, g, j)
  {
    assert GroupPlaced(geo, vol, lay, g) && Counted(geo, vol, lay, k, g);
    FullIffAllSet(MapBits(geo, vol, lay, k, g), 8 * geo.blockSize);
  }

  lemma {:induction false} FsTakeIff(geo: Geometry, vol: Volume, lay: Layout, k: Kind, from: nat)
    requires FsOk(geo, vol, lay)
    ensures match FsTake(geo, vol, lay, k, from)
            case None => forall g, i :: from <= g ==> !FreeBit(geo, vol, lay, k, g, i)
            case Some((vol', g, i)) =>
              CanTake(Taking(geo, vol, lay, k, g, i)) && vol' == After(Taking(geo, vol, lay, k, g, i))
    decreases geo.groups - from
  {
    if from < geo.groups {
      GroupTakeIff(geo, vol, lay, k, from);
      FsTakeIff(geo, vol, lay, k, from + 1);
    }
  }

  /** Within a group's capacity a number names one group and one bit. */
  lemma NumberInjective(geo: Geometry, k: Kind, g: nat, i: nat, g': nat, i': nat)
    requires GeoOk(geo) && i < PerGroup(geo, k) && i' < PerGroup(geo, k)
    requires Number(geo, k, g, i) == Number(geo, k, g', i')
    ensures g == g' && i == i'
  {
    var n := PerGroup(geo, k);
    assert n * g + i == n * g' + i';
    DivModUnique(n * g + i, n, g, i);
    DivModUnique(n * g + i, n, g', i');
  }

  function GetBlockGroup(geo: Geometry, inode: nat): nat
    requires inode > 0 && geo.inodesPerGroup > 0
  {
    (inode - 1) / geo.inodesPerGroup
  }

  function GetTableIndex(geo: Geometry, inode: nat): (i: nat)
    requires inode > 0 && geo.inodesPerGroup > 0
    ensures i < geo.inodesPerGroup
  {
    (inode - 1) % geo.inodesPerGroup
  }

  /** An inode number leads back to its group and bit exactly when the bit is not padding. */
  lemma InodeHomeIff(geo: Geometry, g: nat, i: nat)
    requires GeoOk(geo)
    ensures Number(geo, OfInodes, g, i) > 0
    ensures var nr := Number(geo, OfInodes, g, i);
      (GetBlockGroup(geo, nr) == g && GetTableIndex(geo, nr) == i) <==> i < geo.inodesPerGroup
  {
    var n := geo.inodesPerGroup;
    assert g * n >= 0;
    if i < n {
      DivModUnique(n * g + i, n, g, i);
    }
  }

  // -------- runs --------

  datatype Issue = Issue(k: Kind, g: nat, i: nat)

  /** Any sequence of block and inode allocations; one that finds nothing changes nothing. */
  ghost function Run(geo: Geometry, vol: Volume, lay: Layout, ops: seq<Kind>): (r: (Volume, seq<Issue>))
    requires FsOk(geo, vol, lay)
    ensures FsOk(geo, r.0, lay)
    decreases |ops|
  {
    if ops == [] then (vol, [])
    else
      FsTakeIff(geo, vol, lay, ops[0], 0);
      match FsTake(geo, vol, lay, ops[0], 0)
      case None => Run(geo, vol, lay, ops[1..])
      case Some((vol1, g, i)) =>
        AfterOk(Taking(geo, vol, lay, ops[0], g, i));
        var (vol2, issued) := Run(geo, vol1, lay, ops[1..]);
        (vol2, [Issue(ops[0], g, i)] + issued)
  }

  ghost predicate WasFree(geo: Geometry, vol: Volume, lay: Layout, a: Issue)
    requires Placed(geo, vol, lay)
  {
    FreeBit(geo, vol, lay, a.k, a.g, a.i)
  }

  ghost predicate AllWereFree(geo: Geometry, vol: Volume, lay: Layout, issued: seq<Issue>)
    requires Placed(geo, vol, lay)
  {
    forall n :: 0 <= n < |issued| ==> WasFree(geo, vol, lay, issued[n])
  }

  ghost predicate Distinct(issued: seq<Issue>) {
    forall m, n :: 0 <= m < n < |issued| ==> issued[m] != issued[n]
  }

  lemma IssueFirst(t: Taking, rest: seq<Issue>)
    requires CanTake(t) && FsOk(t.geo, After(t), t.lay) && AllWereFree(t.geo, After(t), t.lay, rest) && Distinct(rest)
    ensures AllWereFree(t.geo, t.vol, t.lay, [Issue(t.k, t.g, t.i)] + rest)
    ensures Distinct([Issue(t.k, t.g, t.i)] + rest)
  {
    forall n | 0 <= n < |rest|
      ensures WasFree(t.geo, t.vol, t.lay, rest[n]) && rest[n] != Issue(t.k, t.g, t.i)
    {
      assert WasFree(t.geo, After(t), t.lay, rest[n]);
      AfterFree(t, rest[n].k, rest[n].g, rest[n].i);
    }
  }

  /** Every issue was a free bit at the start, and no bit is issued twice. */
  lemma {:induction false} RunIssuesFresh(geo: Geometry, vol: Volume, lay: Layout, ops: seq<Kind>)
    requires FsOk(geo, vol, lay)
    ensures AllWereFree(geo, vol, lay, Run(geo, vol, lay, ops).1) && Distinct(Run(geo, vol, lay, ops).1)
    decreases |ops|
  {
    if ops != [] {
      FsTakeIff(geo, vol, lay, ops[0], 0);
      var r := FsTake(geo, vol, lay, ops[0], 0);
      if r == None {
        RunIssuesFresh(geo, vol, lay, ops[1..]);
      } else {
        var t := Taking(geo, vol, lay, ops[0], r.value.1, r.value.2);
        AfterOk(t);
        RunIssuesFresh(geo, After(t), lay, ops[1..]);
        IssueFirst(t, Run(geo, After(t), lay, ops[1..]).1);
      }
    }
  }

  /** Every free bit is still free or was issued, and an allocation that issued nothing found none of its kind left. */
  ghost predicate Accounted(geo: Geometry, vol: Volume, lay: Layout, ops: seq<Kind>, vol': Volume, issued: seq<Issue>)
    requires Placed(geo, vol, lay) && Placed(geo, vol', lay)
  {
    && (forall k, g, i :: FreeBit(geo, vol', lay, k, g, i) <==> FreeBit(geo, vol, lay, k, g, i) && Issue(k, g, i) !in issued)
    && (|issued| < |ops| ==> exists k :: k in ops && NoneLeft(geo, vol', lay, k))
  }

  ghost predicate NoneLeft(geo: Geometry, vol: Volume, lay: Layout, k: Kind)
    requires Placed(geo, vol, lay)
  {
    forall g, i :: !FreeBit(geo, vol, lay, k, g, i)
  }

  lemma {:induction false} RunAccounted(geo: Geometry, vol: Volume, lay: Layout, ops: seq<Kind>)
    requires FsOk(geo, vol, lay)
    ensures var (vol', issued) := Run(geo, vol, lay, ops); Accounted(geo, vol, lay, ops, vol', issued)
    decreases |ops|
  {
    hide BitMeans, Counted, GroupPlaced, FreeBit, FsTake, After;
    if ops != [] {
      FsTakeIff(geo, vol, lay, ops[0], 0);
      var r := FsTake(geo, vol, lay, ops[0], 0);
      var (vol', issued) := Run(geo, vol, lay, ops);
      if r == None {
        RunAccounted(geo, vol, lay, ops[1..]);
        assert ops[0] in ops && NoneLeft(geo, vol', lay, ops[0]);
      } else {
        var t := Taking(geo, vol, lay, ops[0], r.value.1, r.value.2);
        AfterOk(t);
        RunAccounted(geo, After(t), lay, ops[1..]);
        IssuedFirst(t, ops, vol', Run(geo, After(t), lay, ops[1..]).1);
      }
    }
  }

  lemma IssuedFirst(t: Taking, ops: seq<Kind>, vol': Volume, rest: seq<Issue>)
    requires CanTake(t) && FsOk(t.geo, After(t), t.lay) && Placed(t.geo, vol', t.lay) && ops != []
    requires Accounted(t.geo, After(t), t.lay, ops[1..], vol', rest)
    ensures Accounted(t.geo, t.vol, t.lay, ops, vol', [Issue(t.k, t.g, t.i)] + rest)
  {
    hide BitMeans, Counted, GroupPlaced, FreeBit, After, NoneLeft;
    var issued := [Issue(t.k, t.g, t.i)] + rest;
    forall k, g, i ensures FreeBit(t.geo, vol', t.lay, k, g, i) <==> FreeBit(t.geo, t.vol, t.lay, k, g, i) && Issue(k, g, i) !in issued {
      AfterFree(t, k, g, i);
    }
    if |issued| < |ops| {
      var k :| k in ops[1..] && NoneLeft(t.geo, vol', t.lay, k);
      assert k in ops;
    }
  }

  /** Over any run no block number and no inode number is issued twice, and issued inode numbers lead home. */
  lemma NumbersIssuedOnce(geo: Geometry, vol: Volume, lay: Layout, ops: seq<Kind>, m: nat, n: nat)
    requires FsOk(geo, vol, lay) && m < n < |Run(geo, vol, lay, ops).1|
    ensures var a, b := Run(geo, vol, lay, ops).1[m], Run(geo, vol, lay, ops).1[n];
      && (a.k == b.k ==> Number(geo, a.k, a.g, a.i) != Number(geo, b.k, b.g, b.i))
      && (a.k.OfInodes? ==>
            var nr := Number(geo, a.k, a.g, a.i);
            nr > 0 && GetBlockGroup(geo, nr) == a.g && GetTableIndex(geo, nr) == a.i)
  {
    RunIssuesFresh(geo, vol, lay, ops);
    var a, b := Run(geo, vol, lay, ops).1[m], Run(geo, vol, lay, ops).1[n];
    assert WasFree(geo, vol, lay, a) && WasFree(geo, vol, lay, b);
    assert BitMeans(geo, vol, lay, a.k, a.g, a.i) && BitMeans(geo, vol, lay, b.k, b.g, b.i);
    if a.k == b.k && Number(geo, a.k, a.g, a.i) == Number(geo, b.k, b.g, b.i) {
      NumberInjective(geo, a.k, a.g, a.i, b.g, b.i);
      assert false;
    }
    InodeHomeIff(geo, a.g, a.i);
  }

  // -------- what the file code relies on --------

  function GroupOf(geo: Geometry, b: nat): nat
    requires geo.blocksPerGroup > 0
  {
    b / geo.blocksPerGroup
  }

  function BitIn(geo: Geometry, b: nat): nat
    requires geo.blocksPerGroup > 0
  {
    b % geo.blocksPerGroup
  }

  predicate IsFree(geo: Geometry, vol: Volume, lay: Layout, b: nat)
    requires Placed(geo, vol, lay)
  {
    FreeBit(geo, vol, lay, OfBlocks, GroupOf(geo, b), BitIn(geo, b))
  }

  /** `Ext2Filesystem::alloc_block` while the superblock's own counter is not zero. */
  function AllocBlock(geo: Geometry, vol: Volume, lay: Layout): (r: Option<(Volume, nat)>)
    requires Placed(geo, vol, lay)
  {
    match FsTake(geo, vol, lay, OfBlocks, 0)
    case None => None
    case Some((vol', g, i)) => Some((vol', Number(geo, OfBlocks, g, i)))
  }

  /** Blocks other than group descriptors and bitmaps. */
  predicate Plain(lay: Layout, b: nat) {
    b < |lay.roles| && !lay.roles[b].DescTable? && !lay.roles[b].BitmapOf?
  }

  predicate InodeMap(lay: Layout, b: nat) {
    b < |lay.roles| && lay.roles[b].BitmapOf? && lay.roles[b].k.OfInodes?
  }

  /** What one block allocation does, as its callers see it. */
  ghost predicate Allocated(geo: Geometry, vol: Volume, lay: Layout, vol': Volume, nr: nat)
    requires Placed(geo, vol, lay)
  {
    && FsOk(geo, vol', lay)
    && nr < |vol| && 0 < nr < 0x1_0000_0000 && lay.roles[nr] == Data && IsFree(geo, vol, lay, nr)
    && (forall b: nat :: IsFree(geo, vol', lay, b) <==> IsFree(geo, vol, lay, b) && b != nr)
    && (forall b :: 0 <= b < |vol| && (Plain(lay, b) || InodeMap(lay, b)) ==> vol'[b] == vol[b])
  }

  lemma SplitNumber(geo: Geometry, g: nat, i: nat, b: nat)
    requires i < geo.blocksPerGroup
    ensures (GroupOf(geo, b) == g && BitIn(geo, b) == i) <==> b == Number(geo, OfBlocks, g, i)
  {
    var n := geo.blocksPerGroup;
    if b == i + g * n {
      DivModUnique(b, n, g, i);
    } else {
      assert b == n * (b / n) + b % n;
    }
  }

  lemma TakenBlock(t: Taking)
    requires CanTake(t) && t.k.OfBlocks?
    ensures Allocated(t.geo, t.vol, t.lay, After(t), Number(t.geo, t.k, t.g, t.i))
  {
    var nr := Number(t.geo, t.k, t.g, t.i);
    AfterOk(t);
    assert BitMeans(t.geo, t.vol, t.lay, t.k, t.g, t.i);
    SplitNumber(t.geo, t.g, t.i, nr);
    UnitsOrdered(t.geo.blocksPerGroup, t.g, t.geo.groups);
    forall b: nat ensures IsFree(t.geo, After(t), t.lay, b) <==> IsFree(t.geo, t.vol, t.lay, b) && b != nr {
      AfterFree(t, OfBlocks, GroupOf(t.geo, b), BitIn(t.geo, b));
      SplitNumber(t.geo, t.g, t.i, b);
    }
    forall b | 0 <= b < |t.vol| && (Plain(t.lay, b) || InodeMap(t.lay, b)) ensures After(t)[b] == t.vol[b] {
      AfterBlocks(t, b);
    }
  }

  /** The scan over the groups stops at the first that has a clear bit, and at its lowest. */
  lemma {:induction false} FsTakeFirst(geo: Geometry, vol: Volume, lay: Layout, k: Kind, from: nat)
    requires FsOk(geo, vol, lay) && FsTake(geo, vol, lay, k, from).Some?
    ensures var (_, g, i) := FsTake(geo, vol, lay, k, from).value;
      && from <= g < geo.groups && FreeBit(geo, vol, lay, k, g, i)
      && (forall h, j :: from <= h < g ==> !FreeBit(geo, vol, lay, k, h, j)) && (forall j: nat :: j < i ==> !FreeBit(geo, vol, lay, k, g, j))
    decreases geo.groups - from
  {
    hide BitMeans, Counted, GroupPlaced, MapBits, GroupTake;
    GroupTakeIff(geo, vol, lay, k, from);
    if GroupTake(geo, vol, lay, k, from).None? {
      FsTakeFirst(geo, vol, lay, k, from + 1);
    }
  }

  /** So the block handed out is the lowest that is free. */
  lemma AllocLowest(geo: Geometry, vol: Volume, lay: Layout, b: nat)
    requires FsOk(geo, vol, lay) && AllocBlock(geo, vol, lay).Some? && IsFree(geo, vol, lay, b)
    ensures AllocBlock(geo, vol, lay).value.1 <= b
  {
    hide Counted, GroupPlaced, MapBits, GroupTake, FsTake, FreeBit;
    FsTakeFirst(geo, vol, lay, OfBlocks, 0);
    var (_, g, i) := FsTake(geo, vol, lay, OfBlocks, 0).value;
    assert BitMeans(geo, vol, lay, OfBlocks, g, i);
    var h, j := GroupOf(geo, b), BitIn(geo, b);
    assert BitMeans(geo, vol, lay, OfBlocks, h, j);
    SplitNumber(geo, h, j, b);
    if h > g {
      UnitsOrdered(geo.blocksPerGroup, g, h);
    }
  }

  /** An allocation hands out a free data block and takes exactly that one; it fails only when none is free. */
  lemma AllocBlockIff(geo: Geometry, vol: Volume, lay: Layout)
    requires FsOk(geo, vol, lay)
    ensures AllocBlock(geo, vol, lay) == None ==> forall b: nat :: !IsFree(geo, vol, lay, b)
    ensures AllocBlock(geo, vol, lay).Some? ==>
      Allocated(geo, vol, lay, AllocBlock(geo, vol, lay).value.0, AllocBlock(geo, vol, lay).value.1)
  {
    FsTakeIff(geo, vol, lay, OfBlocks, 0);
    var r := FsTake(geo, vol, lay, OfBlocks, 0);
    if r.Some? {
      TakenBlock(Taking(geo, vol, lay, OfBlocks, r.value.1, r.value.2));
    }
  }

  ghost predicate SameMetadata(vol: Volume, lay: Layout, vol': Volume) {
    |vol'| == |vol| && forall b :: 0 <= b < |vol| && !Plain(lay, b) ==> vol'[b] == vol[b]
  }

  lemma PlainPlaced(geo: Geometry, vol: Volume, lay: Layout, vol': Volume, g: nat)
    requires Placed(geo, vol, lay) && Sized(geo, vol') && SameMetadata(vol, lay, vol') && g < geo.groups
    ensures DescBlock(geo, g) < |vol| && Desc(geo, vol', g) == Desc(geo, vol, g)
    ensures GroupPlaced(geo, vol', lay, g)
  {
    assert GroupPlaced(geo, vol, lay, g);
    PlacedByDesc(geo, vol, vol', lay, g);
  }

  lemma PlainBits(geo: Geometry, vol: Volume, lay: Layout, vol': Volume, k: Kind, g: nat)
    requires Placed(geo, vol, lay) && Placed(geo, vol', lay) && SameMetadata(vol, lay, vol') && g < geo.groups
    ensures MapBits(geo, vol', lay, k, g) == MapBits(geo, vol, lay, k, g)
    ensures forall i :: FreeBit(geo, vol', lay, k, g, i) <==> FreeBit(geo, vol, lay, k, g, i)
  {
    assert GroupPlaced(geo, vol, lay, g);
  }

  /** A change confined to plain blocks keeps the file system well formed and the same blocks free. */
  lemma PlainWriteOk(geo: Geometry, vol: Volume, lay: Layout, vol': Volume)
    requires FsOk(geo, vol, lay) && Sized(geo, vol') && SameMetadata(vol, lay, vol')
    ensures FsOk(geo, vol', lay)
    ensures forall b: nat :: IsFree(geo, vol', lay, b) <==> IsFree(geo, vol, lay, b)
  {
    forall g | 0 <= g < geo.groups ensures GroupPlaced(geo, vol', lay, g) {
      PlainPlaced(geo, vol, lay, vol', g);
    }
    forall k, g | 0 <= g < geo.groups ensures Counted(geo, vol', lay, k, g) {
      PlainPlaced(geo, vol, lay, vol', g);
      PlainBits(geo, vol, lay, vol', k, g);
      assert Counted(geo, vol, lay, k, g);
    }
    forall k, g: nat, i: nat ensures BitMeans(geo, vol', lay, k, g, i) {
      assert BitMeans(geo, vol, lay, k, g, i);
      if g < geo.groups {
        PlainBits(geo, vol, lay, vol', k, g);
      }
    }
    forall b: nat ensures IsFree(geo, vol', lay, b) <==> IsFree(geo, vol, lay, b) {
      if GroupOf(geo, b) < geo.groups {
        PlainBits(geo, vol, lay, vol', OfBlocks, GroupOf(geo, b));
      }
    }
  }
}
