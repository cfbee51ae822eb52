/** When the operations on the files of a volume panic (src/fs/ext2.rs). */
module Ext2Panics {
  import opened Arith
  import opened Bits
  import opened Options
  import opened Ext2Layout
  import opened Ext2Alloc
  import opened Ext2File
  import opened Ext2Space
  import opened Ext2Contents
  import opened Ext2Create
  import opened Ext2Files

  /** When an operation panics: `resize` for want of blocks, creation for want of an inode, a write never. */
  lemma StepIff(w: World, op: Op)
    requires WorldOk(w)
    ensures Step(w, op).Some? <==>
      match op
      case Sizing(i, newSize) =>
        || i >= |w.files| || BlockCount(w.fs.geo, newSize) > GrowthLimit(w.fs.geo)
        || FreeCount(w.fs) >= Need(w.fs.geo, w.files[i], FileBlocks(w.fs.geo, w.files[i]), BlockCount(w.fs.geo, newSize))
      case Creation => exists nr :: FreeInode(w.fs, nr)
      case Storing(_, _, _, _) => true
  {
    hide BitMeans, Counted, GroupPlaced, FreeBit, FileOk, BlockCount, GrowthLimit, Resize, CreateInode, FreeCount, Need, NoShared, FreeBlank, OnDisk, FreeInode, PutData;
    match op
    case Sizing(i, newSize) =>
      if i < |w.files| && BlockCount(w.fs.geo, newSize) <= GrowthLimit(w.fs.geo) {
        assert Present(w.fs, w.files[i]);
        ResizeIff(w.fs, w.files[i], newSize);
      }
    case Creation => CreateIff(w.fs);
    case Storing(_, _, _, _) =>
  }
}

/** `write`, where its chunks stay inside their blocks, as a run of the files of a volume (src/fs/ext2.rs). */
module Ext2Runs {
  import opened Arith
  import opened Bits
  import opened Options
  import opened Disks
  import opened Ext2Layout
  import opened Ext2Alloc
  import opened Ext2File
  import opened Ext2Chunks
  import opened Ext2Contents
  import opened Ext2Write
  import opened Ext2Files

  /** A run followed by one more operation. */
  lemma {:induction false} RunAppend(w: World, ops: seq<Op>, op: Op)
    requires WorldOk(w)
    ensures Ext2Files.Run(w, []) == Some(w)
    ensures Ext2Files.Run(w, ops + [op]) == if Ext2Files.Run(w, ops).None? then None else Step(Ext2Files.Run(w, ops).value, op)
    decreases |ops|
  {
    hide WorldOk, Step;
    if ops == [] {
      assert ops + [op] == [op];
      assert [op][1..] == [];
      if Step(w, op).Some? {
        StepOk(w, op);
      }
    } else {
      assert (ops + [op])[1..] == ops[1..] + [op];
      if Step(w, ops[0]).Some? {
        StepOk(w, ops[0]);
        RunAppend(Step(w, ops[0]).value, ops[1..], op);
      }
    }
  }

  /** The first `k` turns of the loop, each a store of its chunk at the same offset into its block. */
  function Stores(geo: Geometry, i: nat, offset: nat, data: seq<byte>, k: nat): seq<Op> {
    if k == 0 then []
    else
      ChunkFits(geo.blockSize, |data|, k - 1);
      Stores(geo, i, offset, data, k - 1) + [Storing(i, k - 1, offset, data[..ChunkSize(geo.blockSize, |data|, k - 1)])]
  }

  /** `write` of `data` at `offset` of file `i`. */
  function WriteOps(geo: Geometry, i: nat, offset: nat, data: seq<byte>): seq<Op>
    requires geo.blockSize > 0 && offset + |data| < 0x1_0000_0000
  {
    [Sizing(i, offset + |data|)] + Stores(geo, i, offset, data, ChunkCount(geo.blockSize, |data|))
  }

  /** Where the loop has got to: file `i` resized, and `k` of its blocks overlaid. */
  ghost predicate At(w: World, i: nat, j: Job, data: seq<byte>, k: nat, w': World)
    requires JobOk(j) && InBlocks(j.fs.geo, j.offset, |data|)
    requires k <= ChunkCount(j.fs.geo.blockSize, |data|) <= Count(j)
  {
    JobFacts(j);
    i < |w.files| && w' == World(WriteBlocks(j.fs1, j.ino1, SecondOf(j.ino1), Count(j), j.offset, data, k), w.files[i := j.ino1])
  }

  lemma Resized(w: World, i: nat, j: Job, data: seq<byte>)
    requires WorldOk(w) && i < |w.files| && JobOk(j) && IsJob(j, w.fs, w.files[i], j.offset, |data|) && End(j) < 0x1_0000_0000
    ensures Step(w, Sizing(i, End(j))) == Some(World(j.fs1, w.files[i := j.ino1]))
    ensures FileBlocks(j.fs.geo, j.ino1) == BlockCount(j.fs.geo, End(j))
  {
    hide FsOk, FileOk, Resize, BlockCount, GrowthLimit, Grown, NoShared, FreeBlank, Holds;
    assert Present(w.fs, w.files[i]);
    JobFacts(j);
  }

  /** One more turn is one more store. */
  lemma OneStore(w: World, i: nat, j: Job, data: seq<byte>, k: nat)
    requires JobOk(j) && InBlocks(j.fs.geo, j.offset, |data|) && k < ChunkCount(j.fs.geo.blockSize, |data|) <= Count(j)
    requires WorldOk(w) && i < |w.files| && w.files[i] == j.ino1 && ChunkCount(j.fs.geo.blockSize, |data|) <= FileBlocks(j.fs.geo, j.ino1)
    requires j.fs1.geo == j.fs.geo && FileOk(j.fs1, j.ino1, SecondOf(j.ino1), Count(j))
    requires w.fs == WriteBlocks(j.fs1, j.ino1, SecondOf(j.ino1), Count(j), j.offset, data, k)
    ensures ChunkSize(j.fs.geo.blockSize, |data|, k) <= |data|
    ensures Step(w, Storing(i, k, j.offset, data[..ChunkSize(j.fs.geo.blockSize, |data|, k)])) ==
      Some(World(WriteBlocks(j.fs1, j.ino1, SecondOf(j.ino1), Count(j), j.offset, data, k + 1), w.files))
  {
    hide FsOk, FileOk, Resize, BlockCount, GrowthLimit, Grown, NoShared, FreeBlank, Holds, ChunkCount, ChunkSize, GetAddr, WriteBlocks, Splice,
      OnDisk;
    assert Present(w.fs, w.files[i]);
    ChunkFits(j.fs.geo.blockSize, |data|, k);
    ChunkPositive(j.fs.geo.blockSize, |data|, k);
    WriteStep(j.fs1, j.ino1, SecondOf(j.ino1), Count(j), j.offset, data, k);
    assert ChunkInBlock(j.fs.geo, j.offset, |data|, k);
  }

  lemma {:induction false} StoresRun(w: World, i: nat, j: Job, data: seq<byte>, k: nat)
    requires WorldOk(w) && i < |w.files| && JobOk(j) && IsJob(j, w.fs, w.files[i], j.offset, |data|) && End(j) < 0x1_0000_0000
    requires InBlocks(j.fs.geo, j.offset, |data|) && k <= ChunkCount(j.fs.geo.blockSize, |data|) <= Count(j)
    ensures var r := Ext2Files.Run(w, [Sizing(i, End(j))] + Stores(j.fs.geo, i, j.offset, data, k)); r.Some? && At(w, i, j, data, k, r.value)
    decreases k
  {
    hide WorldOk, Step, Resize, GrowthLimit, Holds, InBlocks, ChunkCount, ChunkSize, FileOk, FsOk, Grown, BlockCount, SameAddrs, MaxIndex;
    JobFacts(j);
    Resized(w, i, j, data);
    ChunksInFile(j.fs.geo, j.offset, |data|);
    var first := [Sizing(i, End(j))];
    if k == 0 {
      assert first + Stores(j.fs.geo, i, j.offset, data, 0) == first;
      assert first[1..] == [];
      StepOk(w, first[0]);
    } else {
      StoresRun(w, i, j, data, k - 1);
      var before := first + Stores(j.fs.geo, i, j.offset, data, k - 1);
      var w1 := Ext2Files.Run(w, before).value;
      OneStore(w1, i, j, data, k - 1);
      var op := Storing(i, k - 1, j.offset, data[..ChunkSize(j.fs.geo.blockSize, |data|, k - 1)]);
      RunAppend(w, before, op);
      assert first + Stores(j.fs.geo, i, j.offset, data, k) == before + [op];
    }
  }

  /**
    What `Inode::write` does on the device, where every chunk stays inside its block, is a
    run of one resize and one store per block: what holds of every run holds of it.
   */
  lemma WriteIsRun(w: World, i: nat, j: Job, data: seq<byte>, fs': Fs, ino': Inode, disk: seq<byte>)
    requires WorldOk(w) && i < |w.files| && IsJob(j, w.fs, w.files[i], j.offset, |data|) && Written(j, data, fs', ino', disk)
    requires End(j) < 0x1_0000_0000 && InBlocks(j.fs.geo, j.offset, |data|)
    ensures Ext2Files.Run(w, WriteOps(j.fs.geo, i, j.offset, data)) == Some(World(fs', w.files[i := ino']))
  {
    hide WorldOk, Step, Ext2Files.Run, InBlocks, ChunkCount, FileOk, FsOk, Resize, BlockCount, GrowthLimit, Holds, Stores, WriteTurns, WriteBlocks, Grown;
    JobFacts(j);
    ChunksInFile(j.fs.geo, j.offset, |data|);
    var n := ChunkCount(j.fs.geo.blockSize, |data|);
    StoresRun(w, i, j, data, n);
    TurnsInBlocks(j.fs1, j.ino1, SecondOf(j.ino1), Count(j), j.disk, j.offset, data, n);
    var now := WriteBlocks(j.fs1, j.ino1, SecondOf(j.ino1), Count(j), j.offset, data, n);
    VolumeOnIs(disk, j.fs.geo, now.vol);
  }
}
