/** The whole of `Inode::write` in src/fs/ext2.rs: `resize`, then a loop that looks its blocks up on the disk as it goes. */
module Ext2Write {
  import opened Arith
  import opened Bits
  import opened Options
  import opened Disks
  import opened Ahci
  import opened Ext2Layout
  import opened Ext2Alloc
  import opened Ext2File
  import opened Ext2Groups
  import opened Ext2Chunks
  import opened Ext2Contents

  /** The file system a disk holds in the place of `fs`. */
  function FsOn(disk: seq<byte>, fs: Fs): Fs {
    fs.(vol := VolumeOn(disk, fs.geo, |fs.vol|))
  }

  // -------- the loop --------

  /** One turn: the block is looked up on the disk as it is now; a transfer past the disk's end moves nothing. */
  ghost function WriteTurn(disk: seq<byte>, fs: Fs, ino: Inode, offset: nat, data: seq<byte>, k: nat): (r: seq<byte>)
    requires GeoOk(fs.geo)
    ensures |r| == |disk|
  {
    var index, n := Quot(offset, fs.geo.blockSize) + k, ChunkSize(fs.geo.blockSize, |data|, k);
    if index >= MaxIndex(fs.geo) then disk
    else
      var at := BlockStart(fs.geo, GetAddr(FsOn(disk, fs), ino, index)) + offset;
      ChunkFits(fs.geo.blockSize, |data|, k);
      if at + n <= |disk| then Splice(disk, at, data[..n]) else disk
  }

  /** The disk after the first `k` turns; `fs` tells where the volume is and how large. */
  ghost function WriteTurns(disk: seq<byte>, fs: Fs, ino: Inode, offset: nat, data: seq<byte>, k: nat): (r: seq<byte>)
    requires GeoOk(fs.geo)
    ensures |r| == |disk|
    decreases k
  {
    if k == 0 then disk else WriteTurn(WriteTurns(disk, fs, ino, offset, data, k - 1), fs, ino, offset, data, k - 1)
  }

  /** Every turn stores from the first block's worth of the data. */
  lemma {:induction false} WriteUsesHead(disk: seq<byte>, fs: Fs, ino: Inode, offset: nat, data: seq<byte>, data': seq<byte>, k: nat)
    requires GeoOk(fs.geo) && |data'| == |data| >= fs.geo.blockSize && data'[..fs.geo.blockSize] == data[..fs.geo.blockSize]
    ensures WriteTurns(disk, fs, ino, offset, data', k) == WriteTurns(disk, fs, ino, offset, data, k)
    decreases k
  {
    hide GetAddr, BlockStart, FsOn, Splice, Quot, MaxIndex;
    if k > 0 {
      WriteUsesHead(disk, fs, ino, offset, data, data', k - 1);
      var n := ChunkSize(fs.geo.blockSize, |data|, k - 1);
      ChunkFits(fs.geo.blockSize, |data|, k - 1);
      assert data'[..n] == data'[..fs.geo.blockSize][..n] == data[..n];
    }
  }

  // -------- a file's blocks on the disk --------

  lemma GridOf(geo: Geometry, a: nat, b: nat)
    requires a != b
    ensures OnGrid(geo.blockSize, BlockStart(geo, a), BlockStart(geo, b))
  {
    if a < b {
      BlocksApart(geo, a, a + 1);
      if a + 1 < b {
        BlocksApart(geo, a, a + 1);
        BlocksApart(geo, a + 1, b);
        NextStart(geo, a);
      } else {
        NextStart(geo, a);
      }
    } else {
      BlocksApart(geo, b, a);
    }
  }

  lemma NextStart(geo: Geometry, a: nat)
    ensures BlockStart(geo, a + 1) == BlockStart(geo, a) + geo.blockSize
  {
  }

  /** The blocks of a well-formed file are laid out as the chunk lemmas ask. */
  lemma FileGridded(fs: Fs, ino: Inode, second: set<nat>, n: nat, disk: seq<byte>)
    requires FileOk(fs, ino, second, n) && Holds(disk, fs.geo, fs.vol)
    ensures Gridded(ExtentOf(fs, ino, n), |disk|)
  {
    hide BitMeans, Counted, GroupPlaced, FreeBit, HoldersOk, BlockOk, GetAddr, BlockStart, OnGrid;
    var x := ExtentOf(fs, ino, n);
    forall i | 0 <= i < n ensures x.starts[i] + x.size <= |disk| {
      FileResolves(fs, ino, second, n, i);
      var b := GetAddr(fs, ino, i);
      assert |fs.vol[b]| == fs.geo.blockSize;
    }
    forall i, j | 0 <= i < n && 0 <= j < n && i != j ensures OnGrid(x.size, x.starts[i], x.starts[j]) {
      assert AddrsApart(fs, ino, i, j);
      GridOf(fs.geo, GetAddr(fs, ino, i), GetAddr(fs, ino, j));
    }
  }

  /** Byte `p` of a file. */
  function ByteOf(fs: Fs, ino: Inode, p: nat): byte
    requires GeoOk(fs.geo) && Quot(p, fs.geo.blockSize) < MaxIndex(fs.geo)
  {
    var a := GetAddr(fs, ino, Quot(p, fs.geo.blockSize));
    if a < |fs.vol| && p % fs.geo.blockSize < |fs.vol[a]| then fs.vol[a][p % fs.geo.blockSize] else 0
  }

  /** It is where the extent says. */
  lemma ByteOnDisk(fs: Fs, ino: Inode, n: nat, disk: seq<byte>, p: nat)
    requires Ok(fs) && n <= MaxIndex(fs.geo) && Holds(disk, fs.geo, fs.vol) && Quot(p, fs.geo.blockSize) < n
    requires GetAddr(fs, ino, Quot(p, fs.geo.blockSize)) < |fs.vol|
    ensures var x := ExtentOf(fs, ino, n); HasByte(x, p) && ByteAt(x, p) < |disk| && disk[ByteAt(x, p)] == ByteOf(fs, ino, p)
  {
    hide BitMeans, Counted, GroupPlaced, FreeBit, GetAddr, BlockStart, Quot;
    var a := GetAddr(fs, ino, Quot(p, fs.geo.blockSize));
    assert fs.vol[a] == disk[BlockStart(fs.geo, a)..BlockStart(fs.geo, a) + fs.geo.blockSize];
  }

  // -------- the whole of a write --------

  /** A write of `bytes` bytes at `offset`: the file before, the file after `resize`, and the disk at that point. */
  datatype Job = Job(fs: Fs, ino: Inode, offset: nat, bytes: nat, fs1: Fs, ino1: Inode, disk: seq<byte>)

  ghost predicate JobOk(j: Job) {
    && GeoOk(j.fs.geo) && FileOk(j.fs, j.ino, SecondOf(j.ino), BlockCount(j.fs.geo, Word(j.ino, SIZE)))
    && BlockCount(j.fs.geo, j.offset + j.bytes) <= GrowthLimit(j.fs.geo)
    && Resize(j.fs, j.ino, j.offset + j.bytes) == Some((j.fs1, j.ino1))
    && Holds(j.disk, j.fs.geo, j.fs1.vol)
  }

  function Size(j: Job): u32 {
    Word(j.ino, SIZE)
  }

  function End(j: Job): nat {
    j.offset + j.bytes
  }

  /** How many blocks the file has once it is resized. */
  function Count(j: Job): nat
    requires GeoOk(j.fs.geo)
  {
    Most(BlockCount(j.fs.geo, Size(j)), BlockCount(j.fs.geo, End(j)))
  }

  lemma JobFacts(j: Job)
    requires JobOk(j)
    ensures j.fs1.geo == j.fs.geo && Ok(j.fs1) && FileOk(j.fs1, j.ino1, SecondOf(j.ino1), Count(j)) && Count(j) <= MaxIndex(j.fs.geo)
    ensures Grown(j.fs, j.ino, BlockCount(j.fs.geo, Size(j)), j.fs1, j.ino1, Count(j))
    ensures Word(j.ino1, SIZE) ==
      if End(j) == Size(j) || BlockCount(j.fs.geo, End(j)) == BlockCount(j.fs.geo, Size(j)) then Size(j) else End(j) % 0x1_0000_0000
  {
    hide FsOk, HoldersOk, BlockOk, AddrsApart, Resize, Grown, BlockCount, GrowthLimit;
    ResizeFile(j.fs, j.ino, End(j));
  }

  ghost function Blocks(j: Job): (x: Extent)
    requires JobOk(j)
    ensures x.size == j.fs.geo.blockSize && |x.starts| == Count(j)
  {
    JobFacts(j);
    ExtentOf(j.fs1, j.ino1, Count(j))
  }

  /** The disk at the end of the loop. */
  ghost function Final(j: Job, data: seq<byte>): (r: seq<byte>)
    requires JobOk(j)
    ensures |r| == |j.disk|
  {
    JobFacts(j);
    WriteTurns(j.disk, j.fs1, j.ino1, j.offset, data, ChunkCount(j.fs.geo.blockSize, j.bytes))
  }

  /** Byte `p` of the file at the end: from the data inside the range written, and as before outside it. */
  ghost predicate RightByte(j: Job, fs2: Fs, data: seq<byte>, p: nat) {
    && GeoOk(j.fs.geo) && fs2.geo == j.fs.geo && Quot(p, j.fs.geo.blockSize) < MaxIndex(j.fs.geo) && |data| == j.bytes
    && (j.offset <= p < End(j) ==> ByteOf(fs2, j.ino1, p) == data[p - j.offset])
    && (p < Size(j) && !(j.offset <= p < End(j)) ==> ByteOf(fs2, j.ino1, p) == ByteOf(j.fs, j.ino, p))
  }

  /** The sectors of turn `k`, on the disk as it then is, stay inside their bounce buffer. */
  ghost predicate TurnContained(disk: seq<byte>, fs: Fs, ino: Inode, offset: nat, bytes: nat, k: nat)
    requires GeoOk(fs.geo)
  {
    var index := Quot(offset, fs.geo.blockSize) + k;
    index < MaxIndex(fs.geo) ==>
      FitsBounce(BlockStart(fs.geo, GetAddr(FsOn(disk, fs), ino, index)) + offset, ChunkSize(fs.geo.blockSize, bytes, k))
  }

  ghost predicate AllContained(j: Job, data: seq<byte>)
    requires JobOk(j)
  {
    && GeoOk(j.fs1.geo)
    && forall k :: 0 <= k < ChunkCount(j.fs.geo.blockSize, j.bytes) ==>
         TurnContained(WriteTurns(j.disk, j.fs1, j.ino1, j.offset, data, k), j.fs1, j.ino1, j.offset, j.bytes, k)
  }

  /**
    No transfer leaves its bounce buffer, the size is the larger of the two ends, every
    block is where `resize` left it, and the contents are the splice.
   */
  ghost predicate WroteRight(j: Job, data: seq<byte>)
    requires JobOk(j)
  {
    var fs2 := FsOn(Final(j, data), j.fs1);
    && AllContained(j, data)
    && Word(j.ino1, SIZE) == Most(Size(j), End(j))
    && SameAddrs(j.fs1, j.ino1, fs2, j.ino1, Count(j))
    && forall p :: 0 <= p < Most(Size(j), End(j)) ==> RightByte(j, fs2, data, p)
  }

  /** What a caller can check: the size the code records is the larger of the two ends. */
  predicate SizeKept(geo: Geometry, size: nat, end: nat)
    requires geo.blockSize > 0
  {
    || end == size
    || (if end < size then BlockCount(geo, end) == BlockCount(geo, size)
        else BlockCount(geo, end) != BlockCount(geo, size) && end < 0x1_0000_0000)
  }

  lemma SizeKeptIff(j: Job)
    requires JobOk(j)
    ensures Word(j.ino1, SIZE) == Most(Size(j), End(j)) <==> SizeKept(j.fs.geo, Size(j), End(j))
  {
    hide FsOk, FileOk, Resize, BlockCount, GrowthLimit, Holds, Word, Grown;
    JobFacts(j);
    RecordedSize(Size(j), End(j), BlockCount(j.fs.geo, End(j)) == BlockCount(j.fs.geo, Size(j)));
  }

  lemma RecordedSize(size: u32, end: nat, same: bool)
    ensures (if end == size || same then size as nat else end % 0x1_0000_0000) == Most(size, end) <==>
      end == size || (if end < size then same else !same && end < 0x1_0000_0000)
  {
  }

  /** The first transfer lies on the disk. */
  ghost predicate FirstOnDisk(j: Job)
    requires JobOk(j)
  {
    var x, q := Blocks(j), Quot(j.offset, j.fs.geo.blockSize);
    j.bytes > 0 ==> q < |x.starts| && x.starts[q] + j.offset + ChunkSize(j.fs.geo.blockSize, j.bytes, 0) <= |j.disk|
  }

  lemma InFile(geo: Geometry, size: nat, p: nat)
    requires geo.blockSize > 0 && p < size
    ensures Quot(p, geo.blockSize) < BlockCount(geo, size)
  {
    var b := geo.blockSize;
    DivCeilLeast(size, b);
    assert p == b * (p / b) + p % b;
    if p / b >= BlockCount(geo, size) {
      MulMono(b, BlockCount(geo, size), p / b);
      assert false;
    }
  }

  lemma ByteInFile(j: Job, p: nat)
    requires JobOk(j) && p < Most(Size(j), End(j))
    ensures Quot(p, j.fs.geo.blockSize) < Count(j) && HasByte(Blocks(j), p)
  {
    hide FsOk, FileOk, Resize, BlockCount, GrowthLimit, Holds, Quot;
    JobFacts(j);
    if p < Size(j) {
      InFile(j.fs.geo, Size(j), p);
    } else {
      InFile(j.fs.geo, End(j), p);
    }
  }

  lemma BlocksGridded(j: Job)
    requires JobOk(j)
    ensures Gridded(Blocks(j), |j.disk|)
  {
    hide FsOk, HoldersOk, BlockOk, AddrsApart, Resize, BlockCount, GrowthLimit, Holds, Gridded, Grown;
    JobFacts(j);
    FileGridded(j.fs1, j.ino1, SecondOf(j.ino1), Count(j), j.disk);
  }

  /** A short write is one splice, at the whole of the offset past the block the offset falls in. */
  lemma ShortWrite(j: Job, data: seq<byte>)
    requires JobOk(j) && FirstOnDisk(j) && 0 < j.bytes <= j.fs.geo.blockSize && |data| == j.bytes
    ensures Quot(j.offset, j.fs.geo.blockSize) < |Blocks(j).starts|
    ensures var at := Blocks(j).starts[Quot(j.offset, j.fs.geo.blockSize)] + j.offset;
      at + j.bytes <= |j.disk| && Final(j, data) == Splice(j.disk, at, data)
  {
    hide FsOk, HoldersOk, BlockOk, AddrsApart, Resize, BlockCount, GrowthLimit, Holds, Grown, GetAddr, BlockStart, MaxIndex, Splice;
    JobFacts(j);
    VolumeOnIs(j.disk, j.fs.geo, j.fs1.vol);
    OneChunk(j.fs.geo.blockSize, j.bytes);
    assert data[..j.bytes] == data;
    assert FsOn(j.disk, j.fs1) == j.fs1;
    var d0 := WriteTurns(j.disk, j.fs1, j.ino1, j.offset, data, 0);
    assert d0 == j.disk;
    assert WriteTurns(j.disk, j.fs1, j.ino1, j.offset, data, 1) == WriteTurn(j.disk, j.fs1, j.ino1, j.offset, data, 0);
  }

  /** Through unchanged addresses, byte `p` at the end is the disk's byte at its old place. */
  lemma FinalByte(j: Job, data: seq<byte>, p: nat)
    requires JobOk(j) && p < Most(Size(j), End(j))
    requires SameAddrs(j.fs1, j.ino1, FsOn(Final(j, data), j.fs1), j.ino1, Count(j))
    ensures HasByte(Blocks(j), p) && ByteAt(Blocks(j), p) < |j.disk|
    ensures Quot(p, j.fs.geo.blockSize) < MaxIndex(j.fs.geo) && j.fs1.geo == j.fs.geo
    ensures ByteOf(FsOn(Final(j, data), j.fs1), j.ino1, p) == Final(j, data)[ByteAt(Blocks(j), p)]
  {
    hide BitMeans, Counted, GroupPlaced, HoldersOk, BlockOk, AddrsApart, Resize, BlockCount, GrowthLimit, Holds, Grown, GetAddr,
      MaxIndex, Quot, WriteTurns, Most, ChunkCount;
    JobFacts(j);
    ByteInFile(j, p);
    var i := Quot(p, j.fs.geo.blockSize);
    FileResolves(j.fs1, j.ino1, SecondOf(j.ino1), Count(j), i);
    var a := GetAddr(j.fs1, j.ino1, i);
    BlocksGridded(j);
    assert Blocks(j).starts[i] == BlockStart(j.fs.geo, a);
    BlockByte(Final(j, data), j.fs.geo, a, p);
  }

  lemma BlockByte(disk: seq<byte>, geo: Geometry, a: nat, p: nat)
    requires geo.blockSize > 0 && BlockStart(geo, a) + geo.blockSize <= |disk|
    ensures |BlockOn(disk, geo, a)| == geo.blockSize
    ensures BlockOn(disk, geo, a)[p % geo.blockSize] == disk[BlockStart(geo, a) + p % geo.blockSize]
  {
  }

  lemma WrittenByte(j: Job, data: seq<byte>, p: nat)
    requires JobOk(j) && WroteRight(j, data) && j.offset <= p < End(j)
    ensures SameAddrs(j.fs1, j.ino1, FsOn(Final(j, data), j.fs1), j.ino1, Count(j))
    ensures RightByte(j, FsOn(Final(j, data), j.fs1), data, p)
  {
    hide FsOk, FileOk, Resize, BlockCount, GrowthLimit, Holds, GetAddr, MaxIndex, WriteTurns, ByteOf, SameAddrs, Quot, Final;
  }

  lemma WrongShort(j: Job) returns (data: seq<byte>)
    requires JobOk(j) && FirstOnDisk(j) && j.bytes <= j.fs.geo.blockSize && !OneBlock(Blocks(j), j.offset, j.bytes)
    ensures |data| == j.bytes && !WroteRight(j, data)
  {
    hide FsOk, FileOk, Resize, BlockCount, GrowthLimit, Holds, GetAddr, MaxIndex, WriteTurns, ByteOf, Final, SameAddrs, Quot, ByteAt, HasByte,
      WroteRight;
    BlocksGridded(j);
    var x := Blocks(j);
    forall q | j.offset <= q < End(j) ensures HasByte(x, q) {
      ByteInFile(j, q);
    }
    var p := MissedByte(x, |j.disk|, j.offset, j.bytes);
    data := seq(j.bytes, _ => Other(j.disk[ByteAt(x, p)]));
    ShortWrite(j, data);
    if WroteRight(j, data) {
      WrittenByte(j, data, p);
      FinalByte(j, data, p);
      assert false;
    }
  }

  lemma WrongLong(j: Job) returns (data: seq<byte>)
    requires JobOk(j) && j.bytes > j.fs.geo.blockSize
    ensures |data| == j.bytes && !WroteRight(j, data)
  {
    hide FsOk, FileOk, Resize, BlockCount, GrowthLimit, Holds, GetAddr, MaxIndex, WriteTurns, ByteOf, SameAddrs, Quot, WroteRight, FsOn;
    JobFacts(j);
    var size := j.fs.geo.blockSize;
    var p := j.offset + size;
    var one, two: seq<byte> := seq(j.bytes, _ => 0), seq(j.bytes, i => if i == size then 1 else 0);
    assert two[..size] == one[..size];
    WriteUsesHead(j.disk, j.fs1, j.ino1, j.offset, one, two, ChunkCount(size, j.bytes));
    assert Final(j, one) == Final(j, two);
    if WroteRight(j, one) {
      WrittenByte(j, one, p);
      if WroteRight(j, two) {
        WrittenByte(j, two, p);
        assert false;
      }
      data := two;
    } else {
      data := one;
    }
  }

  // -------- a write that stays in the first block, or spills into an adjacent second --------

  lemma SpliceSplit(s: seq<byte>, at: nat, data: seq<byte>, k: nat)
    requires at + |data| <= |s| && k <= |data|
    ensures Splice(s, at, data) == Splice(Splice(s, at, data[..k]), at + k, data[k..])
  {
  }

  /** A splice inside block `i` of a file, on the disk and on the volume. */
  lemma SpliceInFile(fs: Fs, ino: Inode, second: set<nat>, n: nat, disk: seq<byte>, i: nat, off: nat, data: seq<byte>)
    requires FileOk(fs, ino, second, n) && Holds(disk, fs.geo, fs.vol) && i < n && off + |data| <= fs.geo.blockSize
    ensures var x := ExtentOf(fs, ino, n);
      && x.starts[i] + off + |data| <= |disk|
      && var disk' := Splice(disk, x.starts[i] + off, data);
         var fs' := FsOn(disk', fs);
         && Holds(disk', fs.geo, fs'.vol) && FileOk(fs', ino, second, n) && SameAddrs(fs, ino, fs', ino, n)
         && ExtentOf(fs', ino, n) == x
  {
    hide BitMeans, Counted, GroupPlaced, HoldersOk, BlockOk, AddrsApart, GetAddr, MaxIndex, Splice, Holds, BlockStart;
    FileResolves(fs, ino, second, n, i);
    var a := GetAddr(fs, ino, i);
    DataWrite(fs, ino, second, n, i, off, data);
    WriteInBlock(disk, fs.geo, fs.vol, a, off, data);
    var disk', fs1 := Splice(disk, BlockStart(fs.geo, a) + off, data), PutData(fs, a, off, data);
    VolumeOnIs(disk', fs.geo, fs1.vol);
    assert FsOn(disk', fs) == fs1;
    SameExtent(fs, fs1, ino, n);
  }

  lemma SameExtent(fs: Fs, fs': Fs, ino: Inode, n: nat)
    requires SameAddrs(fs, ino, fs', ino, n)
    ensures ExtentOf(fs', ino, n) == ExtentOf(fs, ino, n)
  {
    hide GetAddr;
    assert ExtentOf(fs', ino, n).starts == ExtentOf(fs, ino, n).starts;
  }

  /** A one-block write keeps the file system well formed and the file's blocks where they are. */
  lemma OneBlockKeeps(j: Job, data: seq<byte>)
    requires JobOk(j) && FirstOnDisk(j) && |data| == j.bytes && OneBlock(Blocks(j), j.offset, j.bytes)
    ensures var fs2 := FsOn(Final(j, data), j.fs1);
      && Holds(Final(j, data), j.fs.geo, fs2.vol) && FileOk(fs2, j.ino1, SecondOf(j.ino1), Count(j))
      && SameAddrs(j.fs1, j.ino1, fs2, j.ino1, Count(j))
  {
    hide FsOk, HoldersOk, BlockOk, AddrsApart, Resize, BlockCount, GrowthLimit, Holds, GetAddr, MaxIndex, WriteTurns, Splice, Quot, FsOn,
      SameAddrs, Grown;
    JobFacts(j);
    var size, second, n := j.fs.geo.blockSize, SecondOf(j.ino1), Count(j);
    if j.bytes == 0 {
      NothingWritten(j, data);
    } else {
      ShortWrite(j, data);
      BelowSize(size, j.offset);
      if j.offset + j.bytes <= size {
        SpliceInFile(j.fs1, j.ino1, second, n, j.disk, 0, j.offset, data);
      } else {
        SpillInFile(j.fs1, j.ino1, second, n, j.disk, j.offset, data);
      }
    }
  }

  /** A splice that runs from a file's first block into its second, which follows it on the disk. */
  lemma SpillInFile(fs: Fs, ino: Inode, second: set<nat>, n: nat, disk: seq<byte>, off: nat, data: seq<byte>)
    requires FileOk(fs, ino, second, n) && Holds(disk, fs.geo, fs.vol) && n >= 2
    requires off < fs.geo.blockSize < off + |data| && |data| <= fs.geo.blockSize
    requires ExtentOf(fs, ino, n).starts[1] == ExtentOf(fs, ino, n).starts[0] + fs.geo.blockSize
    ensures var x := ExtentOf(fs, ino, n);
      && x.starts[0] + off + |data| <= |disk|
      && var disk' := Splice(disk, x.starts[0] + off, data);
         var fs' := FsOn(disk', fs);
         Holds(disk', fs.geo, fs'.vol) && FileOk(fs', ino, second, n) && SameAddrs(fs, ino, fs', ino, n)
  {
    hide BitMeans, Counted, GroupPlaced, HoldersOk, BlockOk, AddrsApart, GetAddr, MaxIndex, Splice, Holds, BlockStart, FsOn, SameAddrs;
    var x, k := ExtentOf(fs, ino, n), fs.geo.blockSize - off;
    FileGridded(fs, ino, second, n, disk);
    SpliceSplit(disk, x.starts[0] + off, data, k);
    SpliceInFile(fs, ino, second, n, disk, 0, off, data[..k]);
    var mid := Splice(disk, x.starts[0] + off, data[..k]);
    var fsm := FsOn(mid, fs);
    FsOnTwice(fs, mid, mid);
    SpliceInFile(fsm, ino, second, n, mid, 1, 0, data[k..]);
    var disk' := Splice(disk, x.starts[0] + off, data);
    FsOnTwice(fs, mid, disk');
    SameAddrsTransitive(fs, fsm, FsOn(disk', fs), ino, n);
  }

  lemma FsOnTwice(fs: Fs, disk: seq<byte>, disk': seq<byte>)
    ensures FsOn(disk', FsOn(disk, fs)) == FsOn(disk', fs) && FsOn(disk, fs).geo == fs.geo
  {
  }

  lemma SameAddrsTransitive(fs: Fs, fs1: Fs, fs2: Fs, ino: Inode, n: nat)
    requires SameAddrs(fs, ino, fs1, ino, n) && SameAddrs(fs1, ino, fs2, ino, n)
    ensures SameAddrs(fs, ino, fs2, ino, n)
  {
  }

  lemma NothingWritten(j: Job, data: seq<byte>)
    requires JobOk(j) && j.bytes == 0
    ensures Final(j, data) == j.disk && FsOn(j.disk, j.fs1) == j.fs1 && SameAddrs(j.fs1, j.ino1, j.fs1, j.ino1, Count(j))
    ensures j.fs1.geo == j.fs.geo
  {
    hide FsOk, HoldersOk, BlockOk, AddrsApart, Resize, BlockCount, GrowthLimit, GetAddr, MaxIndex, Grown;
    JobFacts(j);
    VolumeOnIs(j.disk, j.fs.geo, j.fs1.vol);
    DivModUnique(j.fs.geo.blockSize - 1, j.fs.geo.blockSize, 0, j.fs.geo.blockSize - 1);
  }

  /** `resize` leaves every byte the file had. */
  lemma OldByte(j: Job, p: nat)
    requires JobOk(j) && p < Size(j)
    ensures Quot(p, j.fs.geo.blockSize) < MaxIndex(j.fs.geo) && j.fs1.geo == j.fs.geo
    ensures ByteOf(j.fs1, j.ino1, p) == ByteOf(j.fs, j.ino, p)
  {
    hide BitMeans, Counted, GroupPlaced, FreeBit, Resize, BlockCount, GrowthLimit, Holds, GetAddr, MaxIndex, Recorded, HolderBlocks, Decode, Quot;
    JobFacts(j);
    InFile(j.fs.geo, Size(j), p);
    GrownByte(j.fs, j.ino, BlockCount(j.fs.geo, Size(j)), j.fs1, j.ino1, Count(j), p);
  }

  lemma GrownByte(fs: Fs, ino: Inode, n: nat, fs': Fs, ino': Inode, m: nat, p: nat)
    requires Grown(fs, ino, n, fs', ino', m) && GeoOk(fs.geo) && Quot(p, fs.geo.blockSize) < n <= MaxIndex(fs.geo) && fs'.geo == fs.geo
    ensures ByteOf(fs', ino', p) == ByteOf(fs, ino, p)
  {
    hide BitMeans, Counted, GroupPlaced, FreeBit, GetAddr, MaxIndex, Recorded, HolderBlocks, Decode, Quot, HoldersOk, AddrsApart;
    var i := Quot(p, fs.geo.blockSize);
    var a := GetAddr(fs, ino, i);
    assert BlockOk(fs, ino, SecondOf(ino), i) && BlockOk(fs', ino', SecondOf(ino'), i);
    assert a == GetAddr(fs', ino', i);
    HolderBlocksHas(fs', ino', SecondOf(ino'), a);
  }

  /** A one-block write stores its data and leaves every other byte of the file. */
  lemma OneBlockByte(j: Job, data: seq<byte>, p: nat)
    requires JobOk(j) && FirstOnDisk(j) && |data| == j.bytes && OneBlock(Blocks(j), j.offset, j.bytes)
    requires p < Most(Size(j), End(j))
    ensures RightByte(j, FsOn(Final(j, data), j.fs1), data, p)
  {
    hide FsOk, FileOk, Resize, BlockCount, GrowthLimit, Holds, GetAddr, MaxIndex, WriteTurns, ByteOf, SameAddrs, Quot, Final, FsOn,
      ByteAt, HasByte, Gridded, OneBlock, ExtentOf;
    OneBlockKeeps(j, data);
    FinalByte(j, data, p);
    var x := Blocks(j);
    FsOnTwice(j.fs1, Final(j, data), j.disk);
    if j.offset <= p < End(j) {
      ShortOne(j);
      ShortWrite(j, data);
      NearByte(x, j.offset, j.bytes, p);
    } else if p < Size(j) {
      OutsideWrite(j, data, p);
      OldByte(j, p);
      JobByte(j, p);
    }
  }

  lemma ShortOne(j: Job)
    requires JobOk(j) && OneBlock(Blocks(j), j.offset, j.bytes) && j.bytes > 0
    ensures j.bytes <= j.fs.geo.blockSize
  {
  }

  lemma JobByte(j: Job, p: nat)
    requires JobOk(j) && p < Most(Size(j), End(j))
    ensures Quot(p, j.fs.geo.blockSize) < MaxIndex(j.fs.geo) && j.fs1.geo == j.fs.geo
    ensures HasByte(Blocks(j), p) && ByteAt(Blocks(j), p) < |j.disk| && j.disk[ByteAt(Blocks(j), p)] == ByteOf(j.fs1, j.ino1, p)
  {
    hide BitMeans, Counted, GroupPlaced, HoldersOk, BlockOk, AddrsApart, Resize, BlockCount, GrowthLimit, Holds, Grown, GetAddr,
      MaxIndex, Quot, Most;
    JobFacts(j);
    ByteInFile(j, p);
    FileResolves(j.fs1, j.ino1, SecondOf(j.ino1), Count(j), Quot(p, j.fs.geo.blockSize));
    ByteOnDisk(j.fs1, j.ino1, Count(j), j.disk, p);
  }

  lemma OutsideWrite(j: Job, data: seq<byte>, p: nat)
    requires JobOk(j) && FirstOnDisk(j) && |data| == j.bytes && OneBlock(Blocks(j), j.offset, j.bytes)
    requires p < Size(j) && !(j.offset <= p < End(j))
    ensures HasByte(Blocks(j), p) && ByteAt(Blocks(j), p) < |j.disk|
    ensures Final(j, data)[ByteAt(Blocks(j), p)] == j.disk[ByteAt(Blocks(j), p)]
  {
    hide FsOk, FileOk, Resize, BlockCount, GrowthLimit, Holds, GetAddr, MaxIndex, WriteTurns, ByteOf, SameAddrs, Quot, Final, FsOn,
      ByteAt, HasByte, Gridded, OneBlock, ExtentOf;
    JobByte(j, p);
    if j.bytes == 0 {
      NothingWritten(j, data);
    } else {
      ShortOne(j);
      ShortWrite(j, data);
      BlocksGridded(j);
      var x := Blocks(j);
      JobByte(j, j.offset);
      NearByte(x, j.offset, j.bytes, j.offset);
      var b := ByteAt(x, p);
      if x.starts[0] + j.offset <= b < x.starts[0] + j.offset + j.bytes {
        var q := b - x.starts[0];
        JobByte(j, q);
        NearByte(x, j.offset, j.bytes, q);
        ByteAtInjective(x, |j.disk|, p, q);
        assert false;
      }
    }
  }

  /** Blocks start at sectors, so only the offset into the file matters to the bounce buffer. */
  lemma BlockBounce(geo: Geometry, b: nat, offset: nat, n: nat)
    requires GeoOk(geo)
    ensures FitsBounce(BlockStart(geo, b) + offset, n) <==> FitsBounce(offset, n)
  {
    BlockSectors(geo, b);
    var k, q := geo.startLba + b * (geo.blockSize / 512), offset / 512;
    DivModUnique(k * 512 + offset, 512, k + q, offset % 512);
  }

  /** The transfer of a one-block write fits the bounce buffer. */
  predicate Bounced(offset: nat, bytes: nat) {
    bytes > 0 ==> FitsBounce(offset, bytes)
  }

  lemma ContainedIff(j: Job, data: seq<byte>)
    requires JobOk(j) && |data| == j.bytes && OneBlock(Blocks(j), j.offset, j.bytes)
    ensures AllContained(j, data) <==> Bounced(j.offset, j.bytes)
  {
    hide FsOk, FileOk, Resize, BlockCount, GrowthLimit, Holds, TurnContained, FitsBounce, ChunkCount, OneBlock, Grown;
    JobFacts(j);
    var size := j.fs.geo.blockSize;
    if j.bytes == 0 {
      NoChunks(size);
    } else {
      ShortOne(j);
      OneChunk(size, j.bytes);
      FirstTurnContained(j);
      assert WriteTurns(j.disk, j.fs1, j.ino1, j.offset, data, 0) == j.disk;
    }
  }

  lemma NoChunks(size: nat)
    requires size > 0
    ensures ChunkCount(size, 0) == 0
  {
    DivModUnique(size - 1, size, 0, size - 1);
  }

  lemma FirstTurnContained(j: Job)
    requires JobOk(j) && GeoOk(j.fs1.geo) && OneBlock(Blocks(j), j.offset, j.bytes) && j.bytes > 0
    ensures TurnContained(j.disk, j.fs1, j.ino1, j.offset, j.bytes, 0) <==> FitsBounce(j.offset, j.bytes)
  {
    hide FsOk, HoldersOk, BlockOk, AddrsApart, Resize, BlockCount, GrowthLimit, Holds, GetAddr, BlockStart, VolumeOn, Grown, FitsBounce, ByteAt,
      MaxIndex, Quot, OneBlock;
    JobFacts(j);
    ShortOne(j);
    OneChunk(j.fs.geo.blockSize, j.bytes);
    ByteInFile(j, j.offset);
    NearByte(Blocks(j), j.offset, j.bytes, j.offset);
    BlockBounce(j.fs.geo, GetAddr(FsOn(j.disk, j.fs1), j.ino1, 0), j.offset, j.bytes);
  }

  lemma RightOne(j: Job, data: seq<byte>)
    requires JobOk(j) && FirstOnDisk(j) && |data| == j.bytes && OneBlock(Blocks(j), j.offset, j.bytes)
    requires SizeKept(j.fs.geo, Size(j), End(j)) && Bounced(j.offset, j.bytes)
    ensures WroteRight(j, data)
  {
    hide FsOk, FileOk, Resize, BlockCount, GrowthLimit, Holds, GetAddr, MaxIndex, WriteTurns, ByteOf, SameAddrs, Quot, Final, FsOn,
      OneBlock, SizeKept, RightByte, AllContained, Bounced;
    ContainedIff(j, data);
    SizeKeptIff(j);
    OneBlockKeeps(j, data);
    forall p | 0 <= p < Most(Size(j), End(j)) ensures RightByte(j, FsOn(Final(j, data), j.fs1), data, p) {
      OneBlockByte(j, data, p);
    }
  }

  /**
    `write` stays inside its bounce buffers and leaves the size at the larger of the two
    ends and the contents spliced, for all data, exactly when the transfer is `OneBlock`,
    fits the bounce buffer, and the size the code records is right.
   */
  lemma WriteIff(j: Job)
    requires JobOk(j) && FirstOnDisk(j)
    ensures (forall data :: |data| == j.bytes ==> WroteRight(j, data)) <==>
      OneBlock(Blocks(j), j.offset, j.bytes) && SizeKept(j.fs.geo, Size(j), End(j)) && Bounced(j.offset, j.bytes)
  {
    hide FsOk, FileOk, Resize, Holds, WroteRight, SizeKept, FirstOnDisk, Bounced;
    if OneBlock(Blocks(j), j.offset, j.bytes) && SizeKept(j.fs.geo, Size(j), End(j)) && Bounced(j.offset, j.bytes) {
      forall data | |data| == j.bytes ensures WroteRight(j, data) {
        RightOne(j, data);
      }
    } else if !OneBlock(Blocks(j), j.offset, j.bytes) {
      if j.bytes > j.fs.geo.blockSize {
        var _ := WrongLong(j);
      } else {
        var _ := WrongShort(j);
      }
    } else if !SizeKept(j.fs.geo, Size(j), End(j)) {
      WrongSize(j, seq(j.bytes, _ => 0));
    } else {
      Overruns(j, seq(j.bytes, _ => 0));
    }
  }

  lemma Overruns(j: Job, data: seq<byte>)
    requires JobOk(j) && |data| == j.bytes && OneBlock(Blocks(j), j.offset, j.bytes) && !Bounced(j.offset, j.bytes)
    ensures !WroteRight(j, data)
  {
    hide FsOk, FileOk, Resize, Holds, FsOn, Final, SameAddrs, RightByte, AllContained, OneBlock, Bounced;
    ContainedIff(j, data);
  }

  /**
    The input that shows the bounce buffer matters: a whole block of whole pages written at
    offset 1 of a file of two adjacent blocks meets the other two conditions, and its
    transfer overruns.
   */
  lemma SpillOverruns(j: Job, data: seq<byte>)
    requires JobOk(j) && |data| == j.bytes == j.fs.geo.blockSize && j.fs.geo.blockSize % 4096 == 0
    requires j.offset == 1 && Size(j) == 2 * j.fs.geo.blockSize
    requires Count(j) >= 2 && Blocks(j).starts[1] == Blocks(j).starts[0] + j.fs.geo.blockSize
    ensures OneBlock(Blocks(j), j.offset, j.bytes) && SizeKept(j.fs.geo, Size(j), End(j))
    ensures !FitsBounce(j.offset, j.bytes) && !WroteRight(j, data)
  {
    hide FsOk, FileOk, Resize, Holds, FsOn, Final, SameAddrs, RightByte, AllContained, GrowthLimit, WroteRight;
    var size := j.fs.geo.blockSize;
    DivModUnique(2 * size + size - 1, size, 2, size - 1);
    DivModUnique(1 + size + size - 1, size, 2, 0);
    PagesOverrun(size);
    Overruns(j, data);
  }

  lemma PagesOverrun(size: nat)
    requires size % 4096 == 0
    ensures !FitsBounce(1, size)
  {
    DivModUnique(size + 4095, 4096, size / 4096, 4095);
  }

  lemma WrongSize(j: Job, data: seq<byte>)
    requires JobOk(j) && !SizeKept(j.fs.geo, Size(j), End(j))
    ensures !WroteRight(j, data)
  {
    hide FsOk, FileOk, Resize, Holds, FsOn, Final, SameAddrs, RightByte, SizeKept;
    SizeKeptIff(j);
  }

  /** Ten bytes at the start of a file of two blocks or more cut it to ten bytes, and this never fails for want of space. */
  lemma TruncatingWrite(fs: Fs, ino: Inode)
    requires GeoOk(fs.geo) && FileOk(fs, ino, SecondOf(ino), BlockCount(fs.geo, Word(ino, SIZE)))
    requires Word(ino, SIZE) > fs.geo.blockSize
    ensures BlockCount(fs.geo, 10) <= GrowthLimit(fs.geo) && Resize(fs, ino, 10).Some?
    ensures Word(Resize(fs, ino, 10).value.1, SIZE) == 10 && !SizeKept(fs.geo, Word(ino, SIZE), 10)
  {
    hide FsOk, HoldersOk, BlockOk, AddrsApart, Grown, PutInode, Sized32, Word;
    var n := BlockCount(fs.geo, Word(ino, SIZE));
    OneChunk(fs.geo.blockSize, 10);
    DivCeilLeast(Word(ino, SIZE), fs.geo.blockSize);
    assert n > 1;
    ResizeFile(fs, ino, 10);
  }

  /** A write past the end that needs no new block leaves the size as it was. */
  lemma ShortSize(fs: Fs, ino: Inode, end: nat)
    requires GeoOk(fs.geo) && FileOk(fs, ino, SecondOf(ino), BlockCount(fs.geo, Word(ino, SIZE)))
    requires 0 < Word(ino, SIZE) < end <= fs.geo.blockSize
    ensures BlockCount(fs.geo, end) <= GrowthLimit(fs.geo) && Resize(fs, ino, end) == Some((fs, ino))
    ensures !SizeKept(fs.geo, Word(ino, SIZE), end)
  {
    hide FsOk, HoldersOk, BlockOk, AddrsApart, Grown, PutInode, Sized32, Word;
    OneChunk(fs.geo.blockSize, end);
    OneChunk(fs.geo.blockSize, Word(ino, SIZE));
  }

  /** What a one-block write stores, a read of the same range returns. */
  lemma WrittenThenRead(j: Job, data: seq<byte>, buf: seq<byte>)
    requires JobOk(j) && FirstOnDisk(j) && |data| == j.bytes <= |buf| && OneBlock(Blocks(j), j.offset, j.bytes)
    ensures AllInReach(Blocks(j), |Final(j, data)|, j.offset, j.bytes)
    ensures ReadChunks(Final(j, data), Blocks(j), j.offset, j.bytes, buf, ChunkCount(j.fs.geo.blockSize, j.bytes))[..j.bytes] == data
  {
    hide FsOk, FileOk, Resize, BlockCount, GrowthLimit, Holds, GetAddr, MaxIndex, WriteTurns, ByteOf, SameAddrs, Quot, FsOn, Final,
      ByteAt, HasByte, Gridded, OneBlock, ExtentOf, ChunkCount, ChunkSize, ReadChunks;
    BlocksGridded(j);
    var x, disk := Blocks(j), Final(j, data);
    OneReach(j);
    forall p | j.offset <= p < End(j) ensures HasByte(x, p) && Agrees(disk, x, j.offset, data, p) {
      OneBlockByte(j, data, p);
      OneBlockKeeps(j, data);
      FinalByte(j, data, p);
    }
    ReadOneBlock(disk, x, j.offset, j.bytes, buf);
    SameBytes(disk, x, j.offset, ReadChunks(disk, x, j.offset, j.bytes, buf, ChunkCount(x.size, j.bytes)), data);
  }

  lemma OneReach(j: Job)
    requires JobOk(j) && FirstOnDisk(j) && OneBlock(Blocks(j), j.offset, j.bytes)
    ensures AllInReach(Blocks(j), |j.disk|, j.offset, j.bytes)
  {
    hide FsOk, FileOk, Resize, BlockCount, GrowthLimit, Holds, GetAddr, MaxIndex, ExtentOf;
    var size := j.fs.geo.blockSize;
    if j.bytes == 0 {
      DivModUnique(size - 1, size, 0, size - 1);
    } else {
      OneChunk(size, j.bytes);
      assert InReach(Blocks(j), |j.disk|, j.offset, j.bytes, 0);
    }
  }

  // -------- the same loop, where every chunk stays inside its block --------

  lemma ChunkPositive(size: nat, bytes: nat, k: nat)
    requires size > 0 && k < ChunkCount(size, bytes)
    ensures ChunkSize(size, bytes, k) > 0
  {
    VisitedIff(size, bytes, k);
    NextCountIs(size, bytes, k);
  }

  /** One more turn, on the disk and on the volume. */
  lemma TurnInBlock(fs: Fs, ino: Inode, second: set<nat>, n: nat, disk: seq<byte>, offset: nat, data: seq<byte>, k: nat)
    requires FileOk(fs, ino, second, n) && InBlocks(fs.geo, offset, |data|) && k < ChunkCount(fs.geo.blockSize, |data|) <= n
    requires Holds(disk, fs.geo, WriteBlocks(fs, ino, second, n, offset, data, k).vol)
    ensures FsOn(disk, fs) == WriteBlocks(fs, ino, second, n, offset, data, k)
    ensures Holds(WriteTurn(disk, fs, ino, offset, data, k), fs.geo, WriteBlocks(fs, ino, second, n, offset, data, k + 1).vol)
  {
    hide FsOk, HoldersOk, BlockOk, AddrsApart, GetAddr, Decode, ChunkCount, ChunkSize, Splice, Holds, WriteBlocks, BlockStart;
    ChunkPositive(fs.geo.blockSize, |data|, k);
    WriteStep(fs, ino, second, n, offset, data, k);
    var now := WriteBlocks(fs, ino, second, n, offset, data, k);
    VolumeOnIs(disk, fs.geo, now.vol);
    WriteInBlock(disk, fs.geo, now.vol, GetAddr(now, ino, k), offset, data[..ChunkSize(fs.geo.blockSize, |data|, k)]);
  }

  lemma {:induction false} TurnsInBlocks(fs: Fs, ino: Inode, second: set<nat>, n: nat, disk: seq<byte>, offset: nat, data: seq<byte>, k: nat)
    requires FileOk(fs, ino, second, n) && InBlocks(fs.geo, offset, |data|) && k <= ChunkCount(fs.geo.blockSize, |data|) <= n
    requires Holds(disk, fs.geo, fs.vol)
    ensures Holds(WriteTurns(disk, fs, ino, offset, data, k), fs.geo, WriteBlocks(fs, ino, second, n, offset, data, k).vol)
    decreases k
  {
    hide FsOk, FileOk, ChunkCount, Holds, InBlocks;
    FileGeoOk(fs, ino, second, n);
    if k > 0 {
      TurnsInBlocks(fs, ino, second, n, disk, offset, data, k - 1);
      TurnInBlock(fs, ino, second, n, WriteTurns(disk, fs, ino, offset, data, k - 1), offset, data, k - 1);
    }
  }

  lemma FileGeoOk(fs: Fs, ino: Inode, second: set<nat>, n: nat)
    requires FileOk(fs, ino, second, n)
    ensures GeoOk(fs.geo) && Ok(fs) && InodeOk(fs.geo, ino) && n <= MaxIndex(fs.geo)
  {
  }

  // -------- the device's reach --------

  /** The `k`-th turn can be carried out on the disk as it then is. */
  ghost predicate TurnOk(disk: seq<byte>, fs: Fs, ino: Inode, offset: nat, bytes: nat, k: nat)
    requires GeoOk(fs.geo)
  {
    ReachesBlock(FsOn(disk, fs), ino, |disk|, Quot(offset, fs.geo.blockSize) + k, offset, ChunkSize(fs.geo.blockSize, bytes, k))
  }

  ghost predicate TurnsOk(disk: seq<byte>, fs: Fs, ino: Inode, offset: nat, data: seq<byte>) {
    GeoOk(fs.geo) && forall k :: 0 <= k < ChunkCount(fs.geo.blockSize, |data|) ==>
      TurnOk(WriteTurns(disk, fs, ino, offset, data, k), fs, ino, offset, |data|, k)
  }

  /** The write `j`, of `data`, has led to `(fs', ino')` and `disk`. */
  ghost predicate Written(j: Job, data: seq<byte>, fs': Fs, ino': Inode, disk: seq<byte>) {
    JobOk(j) && |data| == j.bytes && ino' == j.ino1 && disk == Final(j, data) && fs' == FsOn(disk, j.fs1)
  }

  /** It starts from this file, with these arguments. */
  predicate IsJob(j: Job, fs: Fs, ino: Inode, offset: nat, bytes: nat) {
    j.fs == fs && j.ino == ino && j.offset == offset && j.bytes == bytes
  }

  /** Once the file is resized, every turn can be carried out, on any disk of that length that holds the volume. */
  ghost predicate WriteReach(fs: Fs, ino: Inode, length: nat, offset: nat, data: seq<byte>) {
    forall j :: IsJob(j, fs, ino, offset, |data|) && JobOk(j) && |j.disk| == length ==> TurnsOk(j.disk, j.fs1, j.ino1, offset, data)
  }

  /** Once resized, the file takes the transfer in one block, in the sense of `OneBlock`. */
  ghost predicate FitsOneBlock(fs: Fs, ino: Inode, offset: nat, bytes: nat) {
    forall j :: IsJob(j, fs, ino, offset, bytes) && JobOk(j) ==> OneBlock(Blocks(j), offset, bytes)
  }

  /** After a write that fits one block the file system is well formed, and the same range can be read back. */
  lemma ReadBack(j: Job, data: seq<byte>, fs': Fs, ino': Inode, disk: seq<byte>)
    requires Written(j, data, fs', ino', disk)
    requires OneBlock(Blocks(j), j.offset, j.bytes) && TurnsOk(j.disk, j.fs1, j.ino1, j.offset, data)
    ensures Ok(fs') && AllReadable(fs', ino', |disk|, j.offset, j.bytes)
    ensures forall buf :: |buf| >= j.bytes && AllInReach(Visited(fs', ino', j.offset, j.bytes), |disk|, j.offset, j.bytes) ==>
      ReadChunks(disk, Visited(fs', ino', j.offset, j.bytes), j.offset, j.bytes, buf, ChunkCount(fs'.geo.blockSize, j.bytes))[..j.bytes] == data
  {
    hide FsOk, HoldersOk, BlockOk, AddrsApart, Resize, BlockCount, GrowthLimit, Holds, GetAddr, MaxIndex, WriteTurns, ChunkCount, ChunkSize,
      ReadChunks, Quot, FsOn, ExtentOf, Final, FileOk, OneBlock, SameAddrs, TurnsOk;
    TurnsFirst(j, data);
    OneBlockKeeps(j, data);
    FsOnTwice(j.fs1, disk, disk);
    JobFacts(j);
    FileGeoOk(fs', j.ino1, SecondOf(j.ino1), Count(j));
    BackReadable(j, data);
    forall buf | |buf| >= j.bytes && AllInReach(Visited(fs', ino', j.offset, j.bytes), |disk|, j.offset, j.bytes)
      ensures ReadChunks(disk, Visited(fs', ino', j.offset, j.bytes), j.offset, j.bytes, buf, ChunkCount(fs'.geo.blockSize, j.bytes))[..j.bytes] == data
    {
      WrittenThenRead(j, data, buf);
      VisitedBlocks(j, data);
      ReadVisited(disk, Visited(fs', ino', j.offset, j.bytes), Blocks(j), j.offset, j.bytes, buf, ChunkCount(fs'.geo.blockSize, j.bytes));
    }
  }

  /** The same for a caller who knew before the write that it would fit. */
  lemma FitsReadBack(fs: Fs, ino: Inode, j: Job, data: seq<byte>, fs': Fs, ino': Inode, disk: seq<byte>)
    requires FitsOneBlock(fs, ino, j.offset, |data|) && WriteReach(fs, ino, |j.disk|, j.offset, data)
    requires IsJob(j, fs, ino, j.offset, |data|) && Written(j, data, fs', ino', disk)
    ensures Ok(fs') && AllReadable(fs', ino', |disk|, j.offset, |data|)
    ensures forall buf :: |buf| >= |data| && AllInReach(Visited(fs', ino', j.offset, |data|), |disk|, j.offset, |data|) ==>
      ReadChunks(disk, Visited(fs', ino', j.offset, |data|), j.offset, |data|, buf, ChunkCount(fs'.geo.blockSize, |data|))[..|data|] == data
  {
    hide FsOk, JobOk, Final, FsOn, OneBlock, TurnsOk, AllReadable, AllInReach, Visited, ReadChunks, ChunkCount;
    ReadBack(j, data, fs', ino', disk);
  }

  lemma TurnsFirst(j: Job, data: seq<byte>)
    requires JobOk(j) && |data| == j.bytes && TurnsOk(j.disk, j.fs1, j.ino1, j.offset, data) && OneBlock(Blocks(j), j.offset, j.bytes)
    ensures FirstOnDisk(j)
  {
    hide FsOk, FileOk, Resize, BlockCount, GrowthLimit, Holds, GetAddr, Decode, Reachable;
    if j.bytes > 0 {
      ShortOne(j);
      OneChunk(j.fs.geo.blockSize, j.bytes);
      FirstTurnOk(j, data);
      ReachableEnd(|j.disk|, Blocks(j).starts[0] + j.offset, j.bytes);
    }
  }

  /** The one turn of such a transfer reaches its block. */
  lemma FirstTurnOk(j: Job, data: seq<byte>)
    requires JobOk(j) && |data| == j.bytes && TurnsOk(j.disk, j.fs1, j.ino1, j.offset, data) && OneBlock(Blocks(j), j.offset, j.bytes)
    requires j.bytes > 0
    ensures Quot(j.offset, j.fs.geo.blockSize) == 0 && |Blocks(j).starts| > 0
    ensures Reachable(|j.disk|, Blocks(j).starts[0] + j.offset, j.bytes)
  {
    hide FsOk, HoldersOk, BlockOk, AddrsApart, Resize, BlockCount, GrowthLimit, Holds, GetAddr, Decode, Reachable, Resolvable, Grown;
    JobFacts(j);
    ShortOne(j);
    OneChunk(j.fs.geo.blockSize, j.bytes);
    ByteInFile(j, j.offset);
    NearByte(Blocks(j), j.offset, j.bytes, j.offset);
    VolumeOnIs(j.disk, j.fs.geo, j.fs1.vol);
    assert WriteTurns(j.disk, j.fs1, j.ino1, j.offset, data, 0) == j.disk;
    assert TurnOk(j.disk, j.fs1, j.ino1, j.offset, j.bytes, 0);
  }

  lemma BackReadable(j: Job, data: seq<byte>)
    requires JobOk(j) && |data| == j.bytes && TurnsOk(j.disk, j.fs1, j.ino1, j.offset, data) && OneBlock(Blocks(j), j.offset, j.bytes)
    requires var fs2 := FsOn(Final(j, data), j.fs1);
      && fs2.geo == j.fs.geo && FileOk(fs2, j.ino1, SecondOf(j.ino1), Count(j)) && SameAddrs(j.fs1, j.ino1, fs2, j.ino1, Count(j))
    ensures AllReadable(FsOn(Final(j, data), j.fs1), j.ino1, |j.disk|, j.offset, j.bytes)
  {
    hide FsOk, HoldersOk, BlockOk, AddrsApart, Resize, BlockCount, GrowthLimit, Holds, GetAddr, Decode, Reachable, Resolvable, Grown, FsOn, Final;
    var fs2, size := FsOn(Final(j, data), j.fs1), j.fs.geo.blockSize;
    JobFacts(j);
    if j.bytes == 0 {
      DivModUnique(size - 1, size, 0, size - 1);
      EmptyReadable(j);
    } else {
      ShortOne(j);
      OneChunk(size, j.bytes);
      FirstTurnOk(j, data);
      FileResolves(fs2, j.ino1, SecondOf(j.ino1), Count(j), 0);
      assert GetAddr(fs2, j.ino1, 0) == GetAddr(j.fs1, j.ino1, 0);
      assert Readable(fs2, j.ino1, |j.disk|, j.offset, j.bytes, 0);
    }
  }

  lemma EmptyReadable(j: Job)
    requires JobOk(j) && j.bytes == 0
    ensures Quot(j.offset, j.fs.geo.blockSize) <= MaxIndex(j.fs.geo)
  {
    hide FsOk, FileOk, Resize, Holds, DivCeil, Quot;
    JobFacts(j);
    QuotAtMostDivCeil(j.offset, j.fs.geo.blockSize);
  }

  lemma VisitedBlocks(j: Job, data: seq<byte>)
    requires JobOk(j) && SameAddrs(j.fs1, j.ino1, FsOn(Final(j, data), j.fs1), j.ino1, Count(j))
    requires var fs2 := FsOn(Final(j, data), j.fs1);
      fs2.geo == j.fs.geo && Quot(j.offset, j.fs.geo.blockSize) + ChunkCount(j.fs.geo.blockSize, j.bytes) <= MaxIndex(j.fs.geo)
    ensures var v, x := Visited(FsOn(Final(j, data), j.fs1), j.ino1, j.offset, j.bytes), Blocks(j);
      v.size == x.size && forall i :: 0 <= i < |v.starts| && i < |x.starts| ==> v.starts[i] == x.starts[i]
  {
    hide FsOk, FileOk, Resize, BlockCount, GrowthLimit, Holds, GetAddr, BlockStart, Final, MaxIndex, ChunkCount, Quot, FsOn;
    JobFacts(j);
  }

  /** Where every chunk stays inside its block, every turn can. */
  lemma InBlocksReach(fs: Fs, ino: Inode, second: set<nat>, n: nat, disk: seq<byte>, offset: nat, data: seq<byte>)
    requires FileOk(fs, ino, second, n) && InBlocks(fs.geo, offset, |data|) && ChunkCount(fs.geo.blockSize, |data|) <= n
    requires Holds(disk, fs.geo, fs.vol) && BlockStart(fs.geo, |fs.vol|) <= |disk| && BlockStart(fs.geo, |fs.vol|) <= BYTE_LIMIT
    ensures TurnsOk(disk, fs, ino, offset, data)
  {
    hide FsOk, HoldersOk, BlockOk, AddrsApart, GetAddr, Decode, ChunkCount, ChunkSize, Holds, WriteBlocks, BlockStart, Reachable, FitsBounce,
      WriteTurns, WriteTurn, FsOn, MaxIndex, Resolvable;
    FileGeoOk(fs, ino, second, n);
    forall k | 0 <= k < ChunkCount(fs.geo.blockSize, |data|)
      ensures TurnOk(WriteTurns(disk, fs, ino, offset, data, k), fs, ino, offset, |data|, k)
    {
      TurnsInBlocks(fs, ino, second, n, disk, offset, data, k);
      TurnInBlock(fs, ino, second, n, WriteTurns(disk, fs, ino, offset, data, k), offset, data, k);
      ChunkPositive(fs.geo.blockSize, |data|, k);
      WriteStep(fs, ino, second, n, offset, data, k);
      var now := WriteBlocks(fs, ino, second, n, offset, data, k);
      BlockReachable(fs.geo, |disk|, GetAddr(now, ino, k), |fs.vol|, offset, ChunkSize(fs.geo.blockSize, |data|, k));
    }
  }

  lemma ChunksInFile(geo: Geometry, offset: nat, bytes: nat)
    requires geo.blockSize > 0
    ensures ChunkCount(geo.blockSize, bytes) <= BlockCount(geo, offset + bytes)
  {
    DivCeilLeast(offset + bytes, geo.blockSize);
    DivCeilLeast(bytes, geo.blockSize);
  }

  /** So a write whose chunks stay inside their blocks can be carried out, on any volume the device reaches. */
  lemma InBlocksWrite(fs: Fs, ino: Inode, length: nat, offset: nat, data: seq<byte>)
    requires InBlocks(fs.geo, offset, |data|)
    requires BlockStart(fs.geo, |fs.vol|) <= length && BlockStart(fs.geo, |fs.vol|) <= BYTE_LIMIT
    ensures WriteReach(fs, ino, length, offset, data)
  {
    hide JobOk, TurnsOk, BlockStart, InBlocks;
    forall j | IsJob(j, fs, ino, offset, |data|) && JobOk(j) && |j.disk| == length ensures TurnsOk(j.disk, j.fs1, j.ino1, offset, data) {
      InBlocksJob(j, data);
    }
  }

  lemma InBlocksJob(j: Job, data: seq<byte>)
    requires JobOk(j) && |data| == j.bytes && InBlocks(j.fs.geo, j.offset, |data|)
    requires BlockStart(j.fs.geo, |j.fs.vol|) <= |j.disk| && BlockStart(j.fs.geo, |j.fs.vol|) <= BYTE_LIMIT
    ensures TurnsOk(j.disk, j.fs1, j.ino1, j.offset, data)
  {
    hide FsOk, HoldersOk, BlockOk, AddrsApart, Resize, BlockCount, GrowthLimit, Holds, TurnsOk, BlockStart, InBlocks, ChunkCount;
    JobFacts(j);
    ChunksInFile(j.fs.geo, j.offset, j.bytes);
    InBlocksReach(j.fs1, j.ino1, SecondOf(j.ino1), Count(j), j.disk, j.offset, data);
  }

  /** Inside the first block, and inside the bounce buffer, a write needs nothing more to be carried out and to fit. */
  lemma FirstBlockWrite(fs: Fs, ino: Inode, length: nat, offset: nat, data: seq<byte>)
    requires GeoOk(fs.geo) && offset + |data| <= fs.geo.blockSize && Bounced(offset, |data|)
    requires BlockStart(fs.geo, |fs.vol|) <= length && BlockStart(fs.geo, |fs.vol|) <= BYTE_LIMIT
    ensures BlockCount(fs.geo, offset + |data|) <= 1 <= GrowthLimit(fs.geo)
    ensures WriteReach(fs, ino, length, offset, data) && FitsOneBlock(fs, ino, offset, |data|)
  {
    hide JobOk, WriteReach, BlockStart, FitsBounce;
    DivCeilLeast(offset + |data|, fs.geo.blockSize);
    if |data| == 0 {
      NoChunks(fs.geo.blockSize);
    } else {
      OneChunk(fs.geo.blockSize, |data|);
    }
    InBlocksWrite(fs, ino, length, offset, data);
  }

  // -------- reading a real file --------

  lemma BlockOutside(geo: Geometry, b: nat, x: Extent, fs: Fs, ino: Inode, n: nat, i: nat)
    requires GeoOk(geo) && fs.geo == geo && n <= MaxIndex(geo) && x == ExtentOf(fs, ino, n)
    requires forall j :: 0 <= j < n ==> GetAddr(fs, ino, j) != b
    requires BlockStart(geo, b) <= i < BlockStart(geo, b) + geo.blockSize
    ensures !Inside(x, i)
  {
    hide GetAddr, BlockStart, MaxIndex;
    forall j | 0 <= j < n ensures !(x.starts[j] <= i < x.starts[j] + x.size) {
      var a := GetAddr(fs, ino, j);
      assert x.starts[j] == BlockStart(geo, a);
      if a < b {
        BlocksApart(geo, a, b);
      } else {
        BlocksApart(geo, b, a);
      }
    }
  }

  /** A disk that differs only in the file's contents holds a well-formed file system with the same file. */
  lemma OtherContents(fs: Fs, ino: Inode, second: set<nat>, n: nat, disk: seq<byte>, disk': seq<byte>)
    requires FileOk(fs, ino, second, n) && Holds(disk, fs.geo, fs.vol) && SameButFile(disk, disk', ExtentOf(fs, ino, n))
    ensures var fs' := FsOn(disk', fs);
      Holds(disk', fs.geo, fs'.vol) && FileOk(fs', ino, second, n) && SameAddrs(fs, ino, fs', ino, n)
  {
    hide BitMeans, Counted, GroupPlaced, FreeBit, AddrsApart, GetAddr, Decode, BlockStart, MaxIndex, BlockOk, Inside;
    var fs' := FsOn(disk', fs);
    VolumeOnHolds(disk', fs.geo, |fs.vol|);
    VolumeOnIs(disk, fs.geo, fs.vol);
    forall b | 0 <= b < |fs.vol| && (forall j :: 0 <= j < n ==> GetAddr(fs, ino, j) != b) ensures fs'.vol[b] == fs.vol[b] {
      SameBlock(fs, ino, n, disk, disk', b);
    }
    forall b | 0 <= b < |fs.vol| && !Plain(fs.lay, b) ensures fs'.vol[b] == fs.vol[b] {
      FileBlocksPlain(fs, ino, second, n, b);
    }
    PlainWriteOk(fs.geo, fs.vol, fs.lay, fs'.vol);
    forall h | HolderIn(fs, ino, second, h) ensures fs'.vol[HolderAt(fs, ino, h)] == fs.vol[HolderAt(fs, ino, h)] {
      HolderNotBlock(fs, ino, second, n, h);
    }
    FileFrame(fs, fs', ino, second, n);
  }

  lemma SameBlock(fs: Fs, ino: Inode, n: nat, disk: seq<byte>, disk': seq<byte>, b: nat)
    requires Ok(fs) && n <= MaxIndex(fs.geo) && Holds(disk, fs.geo, fs.vol) && SameButFile(disk, disk', ExtentOf(fs, ino, n))
    requires b < |fs.vol| && forall j :: 0 <= j < n ==> GetAddr(fs, ino, j) != b
    ensures VolumeOn(disk', fs.geo, |fs.vol|)[b] == fs.vol[b]
  {
    hide BitMeans, Counted, GroupPlaced, FreeBit, GetAddr, BlockStart, MaxIndex, Inside;
    var start := BlockStart(fs.geo, b);
    assert fs.vol[b] == disk[start..start + fs.geo.blockSize];
    forall i | start <= i < start + fs.geo.blockSize ensures disk'[i] == disk[i] {
      BlockOutside(fs.geo, b, ExtentOf(fs, ino, n), fs, ino, n, i);
    }
  }

  lemma FileBlocksPlain(fs: Fs, ino: Inode, second: set<nat>, n: nat, b: nat)
    requires FileOk(fs, ino, second, n) && b < |fs.vol| && !Plain(fs.lay, b)
    ensures forall j :: 0 <= j < n ==> GetAddr(fs, ino, j) != b
  {
    hide BitMeans, Counted, GroupPlaced, FreeBit, HoldersOk, AddrsApart, GetAddr, Decode;
    forall j | 0 <= j < n ensures GetAddr(fs, ino, j) != b {
      assert BlockOk(fs, ino, second, j);
    }
  }

  lemma HolderNotBlock(fs: Fs, ino: Inode, second: set<nat>, n: nat, h: Holder)
    requires FileOk(fs, ino, second, n) && HolderIn(fs, ino, second, h)
    ensures HolderAt(fs, ino, h) < |fs.vol| && forall j :: 0 <= j < n ==> GetAddr(fs, ino, j) != HolderAt(fs, ino, h)
  {
    hide BitMeans, Counted, GroupPlaced, FreeBit, AddrsApart, GetAddr, Decode;
    forall j | 0 <= j < n ensures GetAddr(fs, ino, j) != HolderAt(fs, ino, h) {
      assert BlockOk(fs, ino, second, j);
    }
  }

  /**
    Reading a well-formed file: no transfer leaves its bounce buffer and the buffer receives
    the file's bytes, for every content the file can have on this volume and every buffer,
    exactly when the transfer is `OneBlock` and fits the bounce buffer.
   */
  lemma ReadFileIff(fs: Fs, ino: Inode, second: set<nat>, n: nat, disk: seq<byte>, offset: nat, bytes: nat)
    requires FileOk(fs, ino, second, n) && Holds(disk, fs.geo, fs.vol) && BlockCount(fs.geo, offset + bytes) <= n
    requires AllInReach(ExtentOf(fs, ino, n), |disk|, offset, bytes)
    ensures Served(ExtentOf(fs, ino, n), |disk|, offset, bytes)
    ensures (forall disk', buf :: SameButFile(disk, disk', ExtentOf(fs, ino, n)) && |buf| == bytes ==>
               ReadRight(disk', ExtentOf(fs, ino, n), offset, bytes, buf)) <==>
      OneBlock(ExtentOf(fs, ino, n), offset, bytes) && Bounced(offset, bytes)
  {
    hide FirstContained, Bounced, FsOk, HoldersOk, BlockOk, AddrsApart, GetAddr, Holds, Gridded, BlockCount, SameButFile, ReadRight, OneBlock, Quot, ExtentOf;
    FileGeoOk(fs, ino, second, n);
    FileGridded(fs, ino, second, n, disk);
    var x := ExtentOf(fs, ino, n);
    forall p | offset <= p < offset + bytes ensures HasByte(x, p) {
      InFile(fs.geo, offset + bytes, p);
    }
    ReadRightIff(disk, x, offset, bytes);
    FirstBounced(fs, ino, n, offset, bytes);
  }

  lemma FirstBounced(fs: Fs, ino: Inode, n: nat, offset: nat, bytes: nat)
    requires GeoOk(fs.geo) && n <= MaxIndex(fs.geo) && (forall p :: offset <= p < offset + bytes ==> HasByte(ExtentOf(fs, ino, n), p))
    ensures FirstContained(ExtentOf(fs, ino, n), offset, bytes) <==> Bounced(offset, bytes)
  {
    hide GetAddr, BlockStart, FitsBounce, MaxIndex, Quot;
    if bytes > 0 {
      assert HasByte(ExtentOf(fs, ino, n), offset);
      BlockBounce(fs.geo, GetAddr(fs, ino, 0), offset, bytes);
    }
  }
}
