/** Little-endian fields, blocks of a volume, and the on-disk records of src/fs/ext2.rs. */
module Ext2Layout {
  import opened Arith
  import opened Bits
  import opened Disks

  // -------- little-endian fields --------

  function Le16(v: u16): (r: seq<byte>)
    ensures |r| == 2
  {
    [v % 0x100, v / 0x100]
  }

  function Le32(v: u32): (r: seq<byte>)
    ensures |r| == 4
  {
    [v % 0x100, v / 0x100 % 0x100, v / 0x1_0000 % 0x100, v / 0x100_0000]
  }

  function U16(s: seq<byte>, at: nat): u16
    requires at + 2 <= |s|
  {
    s[at] as int + 0x100 * s[at + 1] as int
  }

  function U32(s: seq<byte>, at: nat): u32
    requires at + 4 <= |s|
  {
    s[at] as int + 0x100 * s[at + 1] as int + 0x1_0000 * s[at + 2] as int + 0x100_0000 * s[at + 3] as int
  }

  /** The lowest byte comes first. */
  lemma LittleEndian(v: u32, j: nat)
    requires j < 4
    ensures Le32(v)[j] == Quot(v, Pow2(8 * j)) % 0x100
    ensures v < 0x1_0000 && j < 2 ==> Le16(v)[j] == Quot(v, Pow2(8 * j)) % 0x100
  {
    hide Pow2;
    BytePowers();
  }

  lemma BytePowers()
    ensures Pow2(0) == 1 && Pow2(8) == 0x100 && Pow2(16) == 0x1_0000 && Pow2(24) == 0x100_0000
  {
    assert Pow2(4) == 0x10;
    assert Pow2(8) == 0x100;
    assert Pow2(12) == 0x1000;
    assert Pow2(16) == 0x1_0000;
    assert Pow2(20) == 0x10_0000;
  }

  lemma Le32RoundTrip(v: u32)
    ensures U32(Le32(v), 0) == v
  {
    var a, b := v / 0x100, v / 0x1_0000;
    assert a / 0x100 == b && b / 0x100 == v / 0x100_0000;
  }

  lemma Le16RoundTrip(v: u16)
    ensures U16(Le16(v), 0) == v
  {
  }

  /** Overlaying one pointer of a block changes that pointer and no other. */
  lemma PointerOverlay(s: seq<byte>, k: nat, j: nat, v: u32)
    requires 4 * k + 4 <= |s| && 4 * j + 4 <= |s|
    ensures U32(Splice(s, 4 * k, Le32(v)), 4 * j) == if j == k then v else U32(s, 4 * j)
  {
    Le32RoundTrip(v);
  }

  // -------- blocks --------

  datatype Geometry = Geometry(startLba: nat, blockSize: nat, groups: nat, blocksPerGroup: nat, inodesPerGroup: nat)

  type Volume = seq<seq<byte>>

  ghost predicate GeoOk(geo: Geometry) {
    && geo.blockSize > 0 && geo.blockSize % 1024 == 0 && geo.blockSize <= 0x40_0000
    && geo.blocksPerGroup > 0 && geo.inodesPerGroup > 0
    && geo.groups * geo.blocksPerGroup < 0x1_0000_0000
    && geo.groups * geo.inodesPerGroup < 0x1_0000_0000
  }

  function BlockStart(geo: Geometry, b: nat): nat {
    geo.startLba * 512 + b * geo.blockSize
  }

  /** `disk` holds, from the partition's first sector on, exactly the blocks of `vol`. */
  ghost predicate Holds(disk: seq<byte>, geo: Geometry, vol: Volume) {
    && |disk| >= BlockStart(geo, |vol|)
    && forall b :: 0 <= b < |vol| ==>
         |vol[b]| == geo.blockSize && BlockStart(geo, b) + geo.blockSize <= |disk|
         && vol[b] == disk[BlockStart(geo, b)..BlockStart(geo, b) + geo.blockSize]
  }

  lemma BlocksApart(geo: Geometry, b: nat, c: nat)
    requires b < c
    ensures BlockStart(geo, b) + geo.blockSize <= BlockStart(geo, c)
  {
    UnitsOrdered(geo.blockSize, b, c);
  }

  /** A write inside one block is a write to that block of the volume and no other. */
  lemma WriteInBlock(disk: seq<byte>, geo: Geometry, vol: Volume, b: nat, off: nat, data: seq<byte>)
    requires Holds(disk, geo, vol) && b < |vol| && off + |data| <= geo.blockSize
    ensures BlockStart(geo, b) + off + |data| <= |disk|
    ensures Holds(Splice(disk, BlockStart(geo, b) + off, data), geo, vol[b := Splice(vol[b], off, data)])
  {
    BlocksApart(geo, b, b + 1);
    var disk', vol' := Splice(disk, BlockStart(geo, b) + off, data), vol[b := Splice(vol[b], off, data)];
    forall c | 0 <= c < |vol'|
      ensures |vol'[c]| == geo.blockSize && BlockStart(geo, c) + geo.blockSize <= |disk'|
      ensures vol'[c] == disk'[BlockStart(geo, c)..BlockStart(geo, c) + geo.blockSize]
    {
      if c < b {
        BlocksApart(geo, c, b);
      } else if b < c {
        BlocksApart(geo, b, c);
      }
      assert vol[c] == disk[BlockStart(geo, c)..BlockStart(geo, c) + geo.blockSize];
    }
  }

  lemma ReadInBlock(disk: seq<byte>, geo: Geometry, vol: Volume, b: nat, off: nat, n: nat)
    requires Holds(disk, geo, vol) && b < |vol| && off + n <= geo.blockSize
    ensures BlockStart(geo, b) + off + n <= |disk|
    ensures disk[BlockStart(geo, b) + off..BlockStart(geo, b) + off + n] == vol[b][off..off + n]
  {
    hide BlockStart;
    SliceOfSlice(disk, BlockStart(geo, b), geo.blockSize, off, n);
  }

  lemma SliceOfSlice(s: seq<byte>, start: nat, size: nat, off: nat, n: nat)
    requires start + size <= |s| && off + n <= size
    ensures s[start..start + size][off..off + n] == s[start + off..start + off + n]
  {
    var t := s[start..start + size];
    var inner, outer := t[off..off + n], s[start + off..start + off + n];
    forall k | 0 <= k < n ensures inner[k] == outer[k] {
      assert t[off + k] == s[start + (off + k)];
    }
  }

  // -------- the volume on a disk --------

  /** What a disk holds in the place of a volume of `blocks` blocks. */
  function VolumeOn(disk: seq<byte>, geo: Geometry, blocks: nat): (vol: Volume)
    ensures |vol| == blocks
  {
    seq(blocks, b requires 0 <= b < blocks => BlockOn(disk, geo, b))
  }

  function BlockOn(disk: seq<byte>, geo: Geometry, b: nat): seq<byte> {
    if BlockStart(geo, b) + geo.blockSize <= |disk| then disk[BlockStart(geo, b)..BlockStart(geo, b) + geo.blockSize] else []
  }

  lemma VolumeOnIs(disk: seq<byte>, geo: Geometry, vol: Volume)
    requires Holds(disk, geo, vol)
    ensures VolumeOn(disk, geo, |vol|) == vol
  {
    forall b | 0 <= b < |vol| ensures VolumeOn(disk, geo, |vol|)[b] == vol[b] {
    }
  }

  lemma VolumeOnHolds(disk: seq<byte>, geo: Geometry, blocks: nat)
    requires BlockStart(geo, blocks) <= |disk|
    ensures Holds(disk, geo, VolumeOn(disk, geo, blocks))
  {
    forall b | 0 <= b < blocks ensures BlockStart(geo, b) + geo.blockSize <= |disk| {
      BlocksApart(geo, b, blocks);
    }
  }
}
