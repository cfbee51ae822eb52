/** The bytes of a file, and what the chunk loops of src/fs/ext2.rs make of them on a whole volume. */
module Ext2Contents {
  import opened Arith
  import opened Bits
  import opened Options
  import opened Disks
  import opened Ahci
  import opened Ext2Layout
  import opened Ext2Alloc
  import opened Ext2File
  import opened Ext2Groups
  import opened Ext2Chunks

  /** The pointer blocks on the way to a slot are blocks of the volume. */
  predicate Resolvable(fs: Fs, ino: Inode, slot: Slot) {
    match slot
    case InInode(_) => true
    case InSingly(_) => Word(ino, SINGLY) < |fs.vol|
    case InSecond(k, _) => Word(ino, DOUBLY) < |fs.vol| && PtrIn(fs.vol, Word(ino, DOUBLY), k) < |fs.vol|
  }

  /** The first `n` blocks of a file, as byte addresses on the disk. */
  ghost function ExtentOf(fs: Fs, ino: Inode, n: nat): (x: Extent)
    requires GeoOk(fs.geo) && n <= MaxIndex(fs.geo)
    ensures x.size == fs.geo.blockSize && |x.starts| == n
    ensures forall i :: 0 <= i < n ==> x.starts[i] == BlockStart(fs.geo, GetAddr(fs, ino, i))
  {
    Extent(fs.geo.blockSize, seq(n, i requires 0 <= i < n => BlockStart(fs.geo, GetAddr(fs, ino, i))))
  }

  /** The `k`-th turn of a transfer can be carried out: its address resolves, and its sectors are on the disk. */
  ghost predicate Readable(fs: Fs, ino: Inode, length: nat, offset: nat, bytes: nat, k: nat)
    requires GeoOk(fs.geo)
  {
    var index := Quot(offset, fs.geo.blockSize) + k;
    && index < MaxIndex(fs.geo) && Resolvable(fs, ino, Decode(fs.geo, index))
    && Reachable(length, BlockStart(fs.geo, GetAddr(fs, ino, index)) + offset, ChunkSize(fs.geo.blockSize, bytes, k))
  }

  ghost predicate AllReadable(fs: Fs, ino: Inode, length: nat, offset: nat, bytes: nat) {
    && GeoOk(fs.geo) && Quot(offset, fs.geo.blockSize) + ChunkCount(fs.geo.blockSize, bytes) <= MaxIndex(fs.geo)
    && forall k :: 0 <= k < ChunkCount(fs.geo.blockSize, bytes) ==> Readable(fs, ino, length, offset, bytes, k)
  }

  ghost function Visited(fs: Fs, ino: Inode, offset: nat, bytes: nat): (x: Extent)
    requires GeoOk(fs.geo) && Quot(offset, fs.geo.blockSize) + ChunkCount(fs.geo.blockSize, bytes) <= MaxIndex(fs.geo)
    ensures x.size == fs.geo.blockSize
  {
    ExtentOf(fs, ino, Quot(offset, fs.geo.blockSize) + ChunkCount(fs.geo.blockSize, bytes))
  }

  /** Where the loops transfer: the block's start, and all of the offset. */
  function ByteAddress(geo: Geometry, block: nat, offset: nat): (r: nat)
    ensures r == BlockStart(geo, block) + offset
  {
    geo.startLba * 512 + block * geo.blockSize + offset
  }

  lemma ReadStep(disk: seq<byte>, x: Extent, offset: nat, bytes: nat, buf: seq<byte>, k: nat, at: nat, n: nat)
    requires AllInReach(x, |disk|, offset, bytes) && k < ChunkCount(x.size, bytes) && bytes <= |buf|
    requires Quot(offset, x.size) + k < |x.starts| && at == x.starts[Quot(offset, x.size) + k] + offset && n == ChunkSize(x.size, bytes, k)
    ensures at + n <= |disk| && n <= bytes
    ensures ReadChunks(disk, x, offset, bytes, buf, k + 1) == Splice(ReadChunks(disk, x, offset, bytes, buf, k), 0, disk[at..at + n])
  {
    hide Splice, ChunkCount, ChunkSize, Quot, Fetched;
    FetchedIs(disk, x, offset, bytes, k, at, n);
    ReadNext(disk, x, offset, bytes, buf, k, k + 1);
  }

  lemma FetchedIs(disk: seq<byte>, x: Extent, offset: nat, bytes: nat, k: nat, at: nat, n: nat)
    requires AllInReach(x, |disk|, offset, bytes) && k < ChunkCount(x.size, bytes)
    requires Quot(offset, x.size) + k < |x.starts| && at == x.starts[Quot(offset, x.size) + k] + offset && n == ChunkSize(x.size, bytes, k)
    ensures at + n <= |disk| && n <= bytes && Fetched(disk, x, offset, bytes, k) == disk[at..at + n]
  {
    hide ChunkCount, ChunkSize, Quot;
    assert InReach(x, |disk|, offset, bytes, k);
    ChunkFits(x.size, bytes, k);
  }

  lemma ReadNext(disk: seq<byte>, x: Extent, offset: nat, bytes: nat, buf: seq<byte>, k: nat, k1: nat)
    requires AllInReach(x, |disk|, offset, bytes) && k1 == k + 1 <= ChunkCount(x.size, bytes) && bytes <= |buf|
    ensures ReadChunks(disk, x, offset, bytes, buf, k1) ==
      Splice(ReadChunks(disk, x, offset, bytes, buf, k), 0, Fetched(disk, x, offset, bytes, k))
  {
    hide Splice, ChunkCount, Fetched, InReach;
    assert k1 - 1 == k;
  }

  lemma ReachableEnd(length: nat, at: nat, n: nat)
    requires Reachable(length, at, n)
    ensures at + n <= length && at < BYTE_LIMIT && Transferable(at, n) && WithinDisk(length, at, n)
  {
    SpanCovers(at, n);
  }

  /** What one turn needs: `n` bytes at the whole of `offset` past the start of block `index`. */
  ghost predicate ReachesBlock(fs: Fs, ino: Inode, length: nat, index: nat, offset: nat, n: nat) {
    && GeoOk(fs.geo) && index < MaxIndex(fs.geo) && Resolvable(fs, ino, Decode(fs.geo, index))
    && Reachable(length, BlockStart(fs.geo, GetAddr(fs, ino, index)) + offset, n)
  }

  lemma TurnReach(fs: Fs, ino: Inode, length: nat, offset: nat, bytes: nat, k: nat)
    requires AllReadable(fs, ino, length, offset, bytes) && k < ChunkCount(fs.geo.blockSize, bytes)
    ensures ReachesBlock(fs, ino, length, Quot(offset, fs.geo.blockSize) + k, offset, ChunkSize(fs.geo.blockSize, bytes, k))
    ensures var x := Visited(fs, ino, offset, bytes);
      && x.size == fs.geo.blockSize && Quot(offset, fs.geo.blockSize) + k < |x.starts|
      && x.starts[Quot(offset, fs.geo.blockSize) + k] == BlockStart(fs.geo, GetAddr(fs, ino, Quot(offset, fs.geo.blockSize) + k))
  {
    hide Reachable, ChunkSize, GetAddr, Decode, MaxIndex, ChunkCount, Quot, BlockStart;
    assert Readable(fs, ino, length, offset, bytes, k);
  }

  lemma ReadableInReach(fs: Fs, ino: Inode, length: nat, offset: nat, bytes: nat)
    requires AllReadable(fs, ino, length, offset, bytes)
    ensures AllInReach(Visited(fs, ino, offset, bytes), length, offset, bytes)
  {
    hide Reachable;
    var size := fs.geo.blockSize;
    forall k | 0 <= k < ChunkCount(size, bytes) ensures InReach(Visited(fs, ino, offset, bytes), length, offset, bytes, k) {
      assert Readable(fs, ino, length, offset, bytes, k);
      ReachableEnd(length, BlockStart(fs.geo, GetAddr(fs, ino, Quot(offset, size) + k)) + offset, ChunkSize(size, bytes, k));
    }
  }

  /** The state of either loop after `k` turns and `moved` bytes. */
  ghost predicate Turned(size: nat, bytes: nat, k: nat, moved: nat) {
    size > 0 && k <= ChunkCount(size, bytes) && moved == Moved(size, bytes, k)
  }

  lemma TurnedStart(size: nat, bytes: nat)
    requires size > 0
    ensures Turned(size, bytes, 0, 0)
  {
  }

  /** While bytes are left there is a block to visit, and the count computed is its chunk. */
  lemma TurnedStep(size: nat, bytes: nat, k: nat, moved: nat)
    requires Turned(size, bytes, k, moved)
    ensures moved <= bytes
    ensures moved < bytes ==>
      && k < ChunkCount(size, bytes) && NextCount(size, bytes, moved) == ChunkSize(size, bytes, k) > 0
      && Turned(size, bytes, k + 1, moved + NextCount(size, bytes, moved))
    ensures moved == bytes ==> k == ChunkCount(size, bytes)
  {
    MovedIs(size, bytes, k);
    VisitedIff(size, bytes, k);
    if moved < bytes {
      NextCountIs(size, bytes, k);
    }
  }

  /** Every chunk of the transfer lies inside its block and fits the bounce buffer. */
  ghost predicate InBlocks(geo: Geometry, offset: nat, bytes: nat) {
    geo.blockSize > 0 && forall k :: 0 <= k < ChunkCount(geo.blockSize, bytes) ==> ChunkInBlock(geo, offset, bytes, k)
  }

  predicate ChunkInBlock(geo: Geometry, offset: nat, bytes: nat, k: nat) {
    && offset + ChunkSize(geo.blockSize, bytes, k) <= geo.blockSize
    && FitsBounce(offset, ChunkSize(geo.blockSize, bytes, k))
  }

  /** From the start of a block every transfer qualifies, of whatever length. */
  lemma InBlocksFromStart(geo: Geometry, bytes: nat)
    requires GeoOk(geo)
    ensures InBlocks(geo, 0, bytes)
  {
    forall k | 0 <= k < ChunkCount(geo.blockSize, bytes) ensures ChunkInBlock(geo, 0, bytes, k) {
      ChunkFits(geo.blockSize, bytes, k);
      RoundUpLeast(ChunkSize(geo.blockSize, bytes, k), 4096);
    }
  }

  function PutData(fs: Fs, b: nat, off: nat, data: seq<byte>): Fs
    requires b < |fs.vol| && off + |data| <= |fs.vol[b]|
  {
    fs.(vol := fs.vol[b := Splice(fs.vol[b], off, data)])
  }

  /** Writing to one of a file's blocks leaves the file system and the file's tree as they were. */
  lemma DataWrite(fs: Fs, ino: Inode, second: set<nat>, n: nat, j: nat, off: nat, data: seq<byte>)
    requires FileOk(fs, ino, second, n) && j < n && off + |data| <= fs.geo.blockSize
    ensures GetAddr(fs, ino, j) < |fs.vol| && |fs.vol[GetAddr(fs, ino, j)]| == fs.geo.blockSize
    ensures var fs' := PutData(fs, GetAddr(fs, ino, j), off, data);
      FileOk(fs', ino, second, n) && SameAddrs(fs, ino, fs', ino, n)
  {
    var b := GetAddr(fs, ino, j);
    assert BlockOk(fs, ino, second, j);
    var fs' := PutData(fs, b, off, data);
    PlainWriteOk(fs.geo, fs.vol, fs.lay, fs'.vol);
    FileFrame(fs, fs', ino, second, n);
  }

  /** Writing to a used data block changes that block alone, and no inode record. */
  lemma DataFrame(fs: Fs, b: nat, off: nat, data: seq<byte>, ino: Inode)
    requires Ok(fs) && Good(fs, b) && off + |data| <= |fs.vol[b]| && InodeOk(fs.geo, ino)
    ensures Keeps(fs, PutData(fs, b, off, data), {b}) && Recorded(fs, ino, PutData(fs, b, off, data), ino)
    ensures forall c: nat :: IsFree(fs.geo, PutData(fs, b, off, data).vol, fs.lay, c) <==> IsFree(fs.geo, fs.vol, fs.lay, c)
  {
    hide BitMeans, Counted, GroupPlaced, FreeBit, Recorded;
    var fs' := PutData(fs, b, off, data);
    PlainWriteOk(fs.geo, fs.vol, fs.lay, fs'.vol);
    FreesAreData(fs);
    TablesKept(fs, fs', ino);
  }

  /** The file system after the first `k` turns of the loop in `write`. */
  ghost function WriteBlocks(fs: Fs, ino: Inode, second: set<nat>, n: nat, offset: nat, data: seq<byte>, k: nat): (r: Fs)
    requires FileOk(fs, ino, second, n) && InBlocks(fs.geo, offset, |data|)
    requires k <= ChunkCount(fs.geo.blockSize, |data|) <= n
    ensures FileOk(r, ino, second, n) && SameAddrs(fs, ino, r, ino, n) && r.lay == fs.lay && |r.vol| == |fs.vol|
    decreases k
  {
    if k == 0 then fs
    else
      var before := WriteBlocks(fs, ino, second, n, offset, data, k - 1);
      assert ChunkInBlock(fs.geo, offset, |data|, k - 1);
      ChunkFits(fs.geo.blockSize, |data|, k - 1);
      var chunk := data[..ChunkSize(fs.geo.blockSize, |data|, k - 1)];
      DataWrite(before, ino, second, n, k - 1, offset, chunk);
      PutData(before, GetAddr(fs, ino, k - 1), offset, chunk)
  }

  lemma FileResolves(fs: Fs, ino: Inode, second: set<nat>, n: nat, j: nat)
    requires FileOk(fs, ino, second, n) && j < n
    ensures j < MaxIndex(fs.geo) && Resolvable(fs, ino, Decode(fs.geo, j)) && GetAddr(fs, ino, j) < |fs.vol|
  {
    assert BlockOk(fs, ino, second, j);
    match Decode(fs.geo, j)
    case InInode(_) =>
    case InSingly(_) => assert Good(fs, HolderAt(fs, ino, Single));
    case InSecond(k, _) =>
      assert HolderIn(fs, ino, second, Double) && Good(fs, HolderAt(fs, ino, Double));
      assert Good(fs, HolderAt(fs, ino, Second(k)));
  }

  /** The next turn writes block `k` of the file, inside that block. */
  lemma WriteStep(fs: Fs, ino: Inode, second: set<nat>, n: nat, offset: nat, data: seq<byte>, k: nat)
    requires FileOk(fs, ino, second, n) && InBlocks(fs.geo, offset, |data|)
    requires k < ChunkCount(fs.geo.blockSize, |data|) <= n && ChunkSize(fs.geo.blockSize, |data|, k) > 0
    ensures var m, now := ChunkSize(fs.geo.blockSize, |data|, k), WriteBlocks(fs, ino, second, n, offset, data, k);
      && Quot(offset, fs.geo.blockSize) == 0 && k < MaxIndex(fs.geo) && m <= |data|
      && offset + m <= fs.geo.blockSize && FitsBounce(offset, m)
      && now.geo == fs.geo && Resolvable(now, ino, Decode(fs.geo, k)) && GetAddr(now, ino, k) < |now.vol|
      && |now.vol[GetAddr(now, ino, k)]| == fs.geo.blockSize
      && WriteBlocks(fs, ino, second, n, offset, data, k + 1) == PutData(now, GetAddr(now, ino, k), offset, data[..m])
      && Ok(PutData(now, GetAddr(now, ino, k), offset, data[..m]))
  {
    hide FsOk, HoldersOk, BlockOk, AddrsApart, GetAddr, Decode, MaxIndex, ChunkCount, Splice;
    var now := WriteBlocks(fs, ino, second, n, offset, data, k);
    assert ChunkInBlock(fs.geo, offset, |data|, k);
    ChunkFits(fs.geo.blockSize, |data|, k);
    BelowSize(fs.geo.blockSize, offset);
    FileResolves(now, ino, second, n, k);
    DataWrite(now, ino, second, n, k, offset, data[..ChunkSize(fs.geo.blockSize, |data|, k)]);
    var k1 := k + 1;
    assert k1 - 1 == k;
    assert WriteBlocks(fs, ino, second, n, offset, data, k1) ==
      PutData(now, GetAddr(now, ino, k), offset, data[..ChunkSize(fs.geo.blockSize, |data|, k)]);
  }

  /** After `resize` the file has the blocks of its old and of its new size. */
  lemma ResizeFile(fs: Fs, ino: Inode, newSize: nat)
    requires GeoOk(fs.geo) && FileOk(fs, ino, SecondOf(ino), BlockCount(fs.geo, Word(ino, SIZE)))
    requires BlockCount(fs.geo, newSize) <= GrowthLimit(fs.geo) && Ext2File.Resize(fs, ino, newSize).Some?
    ensures var (fs', ino') := Ext2File.Resize(fs, ino, newSize).value;
      var n, m := BlockCount(fs.geo, Word(ino, SIZE)), BlockCount(fs.geo, newSize);
      && fs'.geo == fs.geo && FileOk(fs', ino', SecondOf(ino'), Most(n, m)) && Grown(fs, ino, n, fs', ino', Most(n, m))
      && Word(ino', SIZE) == (if newSize == Word(ino, SIZE) || m == n then Word(ino, SIZE) else newSize % 0x1_0000_0000)
  {
    hide FsOk, HoldersOk, BlockOk, AddrsApart, PutInode, BlockCount, GrowthLimit, Sized32;
    var n, m := BlockCount(fs.geo, Word(ino, SIZE)), BlockCount(fs.geo, newSize);
    if newSize != Word(ino, SIZE) && n != m {
      var (fs1, ino1) := GrowTo(fs, ino, n, m).value;
      GrownThenSized(fs, ino, n, fs1, ino1, Most(n, m), newSize);
    } else {
      KeepsItself(fs, ino, n);
    }
  }

  /** The turns of the loop in `write`, carried out on a file of `n` blocks. */
  ghost predicate LoopDone(fs: Fs, ino: Inode, n: nat, offset: nat, data: seq<byte>, fs': Fs) {
    && FileOk(fs, ino, SecondOf(ino), n) && InBlocks(fs.geo, offset, |data|)
    && ChunkCount(fs.geo.blockSize, |data|) <= n
    && fs' == WriteBlocks(fs, ino, SecondOf(ino), n, offset, data, ChunkCount(fs.geo.blockSize, |data|))
  }

  // -------- transfers within the first block --------

  /** Bytes `offset` to `offset + bytes` of the file's first block. */
  function Slice(fs: Fs, b: nat, offset: nat, bytes: nat): seq<byte>
    requires b < |fs.vol| && offset + bytes <= |fs.vol[b]|
  {
    fs.vol[b][offset..offset + bytes]
  }

  lemma OneBlockReadable(fs: Fs, ino: Inode, second: set<nat>, n: nat, length: nat, offset: nat, bytes: nat)
    requires FileOk(fs, ino, second, n) && 0 < n && 0 < bytes && offset + bytes <= fs.geo.blockSize && FitsBounce(offset, bytes)
    requires BlockStart(fs.geo, |fs.vol|) <= length && BlockStart(fs.geo, |fs.vol|) <= BYTE_LIMIT
    ensures AllReadable(fs, ino, length, offset, bytes) && ChunkCount(fs.geo.blockSize, bytes) == 1
  {
    hide BitMeans, Counted, GroupPlaced, HoldersOk, BlockOk, AddrsApart, GetAddr, Decode, BlockStart, FitsBounce, Reachable;
    OneChunk(fs.geo.blockSize, bytes);
    BelowSize(fs.geo.blockSize, offset);
    FileResolves(fs, ino, second, n, 0);
    BlockReachable(fs.geo, length, GetAddr(fs, ino, 0), |fs.vol|, offset, bytes);
    assert Readable(fs, ino, length, offset, bytes, 0);
  }

  lemma SliceOnDisk(disk: seq<byte>, fs: Fs, b: nat, offset: nat, bytes: nat, at: nat)
    requires Holds(disk, fs.geo, fs.vol) && b < |fs.vol| && offset + bytes <= fs.geo.blockSize
    requires at == BlockStart(fs.geo, b) + offset
    ensures |fs.vol[b]| == fs.geo.blockSize && at + bytes <= |disk|
    ensures disk[at..at + bytes] == Slice(fs, b, offset, bytes)
  {
    ReadInBlock(disk, fs.geo, fs.vol, b, offset, bytes);
  }

  /** A read within the first block fetches that slice of it. */
  lemma ReadsSlice(disk: seq<byte>, fs: Fs, ino: Inode, offset: nat, bytes: nat, buf: seq<byte>)
    requires AllReadable(fs, ino, |disk|, offset, bytes) && Holds(disk, fs.geo, fs.vol)
    requires AllInReach(Visited(fs, ino, offset, bytes), |disk|, offset, bytes)
    requires 0 < bytes <= |buf| && offset + bytes <= fs.geo.blockSize && GetAddr(fs, ino, 0) < |fs.vol|
    ensures |fs.vol[GetAddr(fs, ino, 0)]| == fs.geo.blockSize
    ensures ReadChunks(disk, Visited(fs, ino, offset, bytes), offset, bytes, buf, ChunkCount(fs.geo.blockSize, bytes)) ==
      Splice(buf, 0, Slice(fs, GetAddr(fs, ino, 0), offset, bytes))
  {
    hide GetAddr, Decode, MaxIndex, BlockStart, InReach, Splice, Holds, Slice, ChunkSize, ChunkCount, Quot, Readable, Visited;
    OneChunk(fs.geo.blockSize, bytes);
    BelowSize(fs.geo.blockSize, offset);
    TurnReach(fs, ino, |disk|, offset, bytes, 0);
    var x, b := Visited(fs, ino, offset, bytes), GetAddr(fs, ino, 0);
    var at := x.starts[0] + offset;
    SliceOnDisk(disk, fs, b, offset, bytes, at);
    ReadStep(disk, x, offset, bytes, buf, 0, at, bytes);
    assert ReadChunks(disk, x, offset, bytes, buf, 1) == Splice(buf, 0, Slice(fs, b, offset, bytes));
  }

  /** A write within the first block overlays that slice of it, and touches no other block. */
  lemma WritesSlice(fs: Fs, ino: Inode, second: set<nat>, n: nat, offset: nat, data: seq<byte>)
    requires FileOk(fs, ino, second, n) && InBlocks(fs.geo, offset, |data|) && 0 < n
    requires 0 < |data| && offset + |data| <= fs.geo.blockSize
    ensures ChunkCount(fs.geo.blockSize, |data|) == 1 && GetAddr(fs, ino, 0) < |fs.vol|
    ensures |fs.vol[GetAddr(fs, ino, 0)]| == fs.geo.blockSize
    ensures WriteBlocks(fs, ino, second, n, offset, data, 1) == PutData(fs, GetAddr(fs, ino, 0), offset, data)
  {
    hide FsOk, HoldersOk, BlockOk, AddrsApart, GetAddr, Decode, MaxIndex, Splice, PutData;
    OneChunk(fs.geo.blockSize, |data|);
    WriteStep(fs, ino, second, n, offset, data, 0);
    assert data[..|data|] == data;
  }
}
