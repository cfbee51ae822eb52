/** Directory search and insertion through the file code, as in src/fs/ext2.rs. */
module Ext2Directories {
  import opened Arith
  import opened Bits
  import opened Options
  import opened Disks
  import opened Ahci
  import opened Ext2Layout
  import opened Ext2Alloc
  import opened Ext2File
  import opened Ext2Dir
  import opened Ext2Groups
  import opened Ext2Chunks
  import opened Ext2Contents
  import opened Ext2Create
  import opened Ext2Write
  import opened Ext2Space
  import opened Ext2Inodes

  /** The directory bit of the type and permission field. */
  const DIRECTORY: nat := 0x4000

  predicate IsDirectory(ino: Inode) {
    And(U16(ino, 0), DIRECTORY) != 0
  }

  /** A directory has bit 14 of its type word set; a new file does not. */
  lemma DirectoryBit(ino: Inode)
    ensures IsDirectory(ino) <==> Test(U16(ino, 0), 14)
    ensures !IsDirectory(NewFile(ino))
  {
    assert Pow2(14) == 0x4000;
    AndPow2(U16(ino, 0), 14);
    NewFileFields(ino);
    AndPow2(0x81ed, 14);
    assert !Test(0x81ed, 14);
  }

  /** A file whose contents fill at most one block. */
  ghost predicate Small(fs: Fs, ino: Inode) {
    && FileOk(fs, ino, SecondOf(ino), 1) && 0 < Word(ino, SIZE) <= fs.geo.blockSize
    && BlockCount(fs.geo, Word(ino, SIZE)) == 1 && GetAddr(fs, ino, 0) < |fs.vol|
    && |fs.vol[GetAddr(fs, ino, 0)]| == fs.geo.blockSize
  }

  ghost function Contents(fs: Fs, ino: Inode): seq<byte>
    requires Small(fs, ino)
  {
    Slice(fs, GetAddr(fs, ino, 0), 0, Word(ino, SIZE))
  }

  /** The whole of a small file, read into memory. */
  method Load(dir: InodeBox) returns (buf: array<byte>)
    requires dir.fs.Valid() && Small(dir.fs.State(), dir.raw)
    modifies dir.fs.dev.fis, dir.fs.dev.prdt
    ensures dir.fs.Valid() && fresh(buf) && buf.Length == Word(dir.raw, SIZE)
    ensures buf[..] == Contents(dir.fs.State(), dir.raw)
  {
    hide FsOk, FileOk, Holds, Sized, GetAddr, AllReadable, Visited, Splice;
    var size := Word(dir.raw, SIZE);
    buf := new byte[size](_ => 0);
    ghost var fs, length := dir.fs.State(), dir.fs.dev.disk.Length;
    FromStart(fs.geo, size);
    OneBlockReadable(fs, dir.raw, SecondOf(dir.raw), 1, length, 0, size);
    ghost var before := buf[..];
    var _ := dir.Read(0, size, buf);
    ReadsSlice(dir.fs.dev.disk[..], fs, dir.raw, 0, size, before);
    SpliceAll(before, Contents(fs, dir.raw));
  }

  lemma SpliceAll(s: seq<byte>, t: seq<byte>)
    requires |s| == |t|
    ensures Splice(s, 0, t) == t
  {
  }

  lemma FromStart(geo: Geometry, n: nat)
    ensures FitsBounce(0, n)
  {
    RoundUpLeast(n, 4096);
  }

  /** `DirectoryEntry::search`. */
  method SearchDirectory(dir: InodeBox, name: seq<byte>, ghost rs: seq<Entry>) returns (r: Option<u32>)
    requires dir.fs.Valid()
    requires IsDirectory(dir.raw) ==> Small(dir.fs.State(), dir.raw) && Directory(Contents(dir.fs.State(), dir.raw), rs)
    modifies dir.fs.dev.fis, dir.fs.dev.prdt
    ensures dir.fs.Valid()
    ensures r == if IsDirectory(dir.raw) then Find(rs, name) else None
  {
    if !IsDirectory(dir.raw) {
      return None;
    }
    hide FsOk, FileOk, Holds, Sized, GetAddr, Directory, Contents;
    var buf := Load(dir);
    r := Search(buf[..], name, rs);
  }

  /** A small file can be written over in full, and `resize` then finds nothing to do. */
  lemma SmallWritable(fs: Fs, ino: Inode)
    requires Small(fs, ino)
    ensures GeoOk(fs.geo) && FileOk(fs, ino, SecondOf(ino), BlockCount(fs.geo, Word(ino, SIZE)))
    ensures BlockCount(fs.geo, 0 + Word(ino, SIZE)) <= GrowthLimit(fs.geo) && InBlocks(fs.geo, 0, Word(ino, SIZE))
    ensures Resize(fs, ino, 0 + Word(ino, SIZE)) == Some((fs, ino))
  {
    InBlocksFromStart(fs.geo, Word(ino, SIZE));
  }

  /** Rewriting the whole of a small file replaces its contents, and changes no other block. */
  lemma Rewritten(fs: Fs, ino: Inode, data: seq<byte>, fs': Fs)
    requires Small(fs, ino) && |data| == Word(ino, SIZE) && LoopDone(fs, ino, 1, 0, data, fs')
    ensures fs' == PutData(fs, GetAddr(fs, ino, 0), 0, data)
    ensures Small(fs', ino) && Contents(fs', ino) == data
  {
    hide BitMeans, Counted, GroupPlaced, HoldersOk, BlockOk, AddrsApart, GetAddr, Decode;
    WritesSlice(fs, ino, SecondOf(ino), 1, 0, data);
    DataWrite(fs, ino, SecondOf(ino), 1, 0, 0, data);
    assert Contents(fs', ino) == data;
  }

  lemma SmallReach(fs: Fs, ino: Inode, length: nat, data: seq<byte>)
    requires Small(fs, ino) && |data| == Word(ino, SIZE)
    requires BlockStart(fs.geo, |fs.vol|) <= length && BlockStart(fs.geo, |fs.vol|) <= BYTE_LIMIT
    ensures GeoOk(fs.geo) && FileOk(fs, ino, SecondOf(ino), BlockCount(fs.geo, Word(ino, SIZE)))
    ensures BlockCount(fs.geo, 0 + |data|) <= GrowthLimit(fs.geo) && WriteReach(fs, ino, length, 0, data)
  {
    hide FsOk, HoldersOk, BlockOk, AddrsApart, GetAddr, BlockStart, InBlocks, Resize, WriteReach, GrowthLimit;
    SmallWritable(fs, ino);
    InBlocksWrite(fs, ino, length, 0, data);
  }

  /** What `write` leaves on the disk is the file's one block overlaid. */
  lemma SmallLoop(fs: Fs, ino: Inode, j: Job, data: seq<byte>, fs': Fs, ino': Inode, disk: seq<byte>)
    requires Small(fs, ino) && |data| == Word(ino, SIZE)
    requires IsJob(j, fs, ino, 0, |data|) && Written(j, data, fs', ino', disk)
    ensures LoopDone(fs, ino, 1, 0, data, fs') && ino' == ino
  {
    hide FsOk, HoldersOk, BlockOk, AddrsApart, GetAddr, Holds, InBlocks, Resize, WriteTurns, WriteBlocks, GrowthLimit;
    SmallWritable(fs, ino);
    OneChunk(fs.geo.blockSize, |data|);
    TurnsInBlocks(fs, ino, SecondOf(ino), 1, j.disk, 0, data, 1);
    VolumeOnIs(WriteTurns(j.disk, fs, ino, 0, data, 1), fs.geo, WriteBlocks(fs, ino, SecondOf(ino), 1, 0, data, 1).vol);
  }

  /** The whole of a small file, written back from memory: `write` finds nothing to resize. */
  method Save(dir: InodeBox, buf: array<byte>)
    requires dir.fs.Valid() && Small(dir.fs.State(), dir.raw)
    requires buf.Length == Word(dir.raw, SIZE) && buf != dir.fs.dev.disk
    modifies dir`raw, dir.fs`vol, dir.fs.dev.disk, dir.fs.dev.fis, dir.fs.dev.prdt
    ensures dir.fs.Valid() && dir.raw == old(dir.raw)
    ensures Small(dir.fs.State(), dir.raw) && Contents(dir.fs.State(), dir.raw) == buf[..]
    ensures dir.fs.State() == Overlaid(old(dir.fs.State()), dir.raw, buf[..])
  {
    hide FsOk, FileOk, Holds, Sized, GetAddr, Contents, LoopDone, InBlocks, PutData, GrowthLimit, Resize, WriteReach, Written, FreeCount;
    ghost var fs, data := dir.fs.State(), buf[..];
    assert buf[..buf.Length] == data;
    SmallWritable(fs, dir.raw);
    SmallReach(fs, dir.raw, dir.fs.dev.disk.Length, data);
    var r, j := dir.Write(0, Word(dir.raw, SIZE), buf);
    SmallLoop(fs, old(dir.raw), j, data, dir.fs.State(), dir.raw, dir.fs.dev.disk[..]);
    Rewritten(fs, old(dir.raw), data, dir.fs.State());
    FileGeoOk(dir.fs.State(), dir.raw, SecondOf(dir.raw), 1);
  }

  /** `after` is `before` with the first roomy entry split and the new one put into its slack. */
  ghost predicate Slotted(before: seq<byte>, rs: seq<Entry>, inode: u32, name: seq<byte>, after: seq<byte>) {
    && FirstRoomy(rs, name, 0).Some?
    && var r := rs[FirstRoomy(rs, name, 0).value]; Bounded(before, r) && after == Insert(before, r, inode, name)
  }

  /** `DirectoryEntry::add_entry`; `false` is `Err`. */
  method AddToDirectory(dir: InodeBox, inode: u32, name: seq<byte>, ghost rs: seq<Entry>) returns (ok: bool)
    requires dir.fs.Valid()
    requires IsDirectory(dir.raw) ==> Small(dir.fs.State(), dir.raw) && Directory(Contents(dir.fs.State(), dir.raw), rs)
    modifies dir`raw, dir.fs`vol, dir.fs.dev.disk, dir.fs.dev.fis, dir.fs.dev.prdt
    ensures dir.fs.Valid() && dir.raw == old(dir.raw)
    ensures !IsDirectory(dir.raw) || FirstRoomy(rs, name, 0) == None ==> !ok && dir.fs.vol == old(dir.fs.vol)
    ensures IsDirectory(dir.raw) && FirstRoomy(rs, name, 0).Some? ==>
      && ok && Small(dir.fs.State(), dir.raw)
      && Slotted(old(Contents(dir.fs.State(), dir.raw)), rs, inode, name, Contents(dir.fs.State(), dir.raw))
      && Directory(Contents(dir.fs.State(), dir.raw), Replaced(rs, FirstRoomy(rs, name, 0).value, inode, name))
      && dir.fs.State() == Overlaid(old(dir.fs.State()), dir.raw, Contents(dir.fs.State(), dir.raw))
  {
    if !IsDirectory(dir.raw) {
      return false;
    }
    hide FsOk, FileOk, Holds, Sized, GetAddr, Directory, Contents, IsDirectory, Replaced, FirstRoomy, PutData;
    var buf := Load(dir);
    ok := AddEntry(buf, inode, name, rs);
    if ok {
      Save(dir, buf);
    }
  }

  // -------- creating a file --------

  /** A small file comes through unharmed when no used data block changes. */
  lemma SmallFrame(fs: Fs, fs': Fs, ino: Inode)
    requires Small(fs, ino) && Keeps(fs, fs', {})
    ensures Small(fs', ino) && Contents(fs', ino) == Contents(fs, ino)
  {
    FileFrame(fs, fs', ino, SecondOf(ino), 1);
    assert BlockOk(fs, ino, SecondOf(ino), 0);
  }

  /** The inode taken and its record written: all of `open` up to `add_entry`. */
  method NewInode(dir: InodeBox) returns (r: Option<InodeBox>)
    requires dir.fs.Valid()
    modifies dir.fs`vol, dir.fs.dev.disk, dir.fs.dev.fis, dir.fs.dev.prdt
    ensures r.None? <==> dir.fs.unallocatedInodes == 0 || CreateInode(old(dir.fs.State())) == None
    ensures r.None? ==> dir.fs.Valid() && dir.fs.vol == old(dir.fs.vol)
    ensures r.Some? ==>
      && dir.fs.Valid() && fresh(r.value) && r.value.fs == dir.fs
      && CreateInode(old(dir.fs.State())) == Some((dir.fs.State(), r.value.raw))
  {
    hide BitMeans, Counted, Placed, Holds, Sized, NewFile, PutInode, GetInode, FsTake;
    ghost var fs0 := dir.fs.State();
    var nr := dir.fs.AllocInode();
    if nr.None? {
      return None;
    }
    TakeInode(fs0);
    ghost var fs1 := dir.fs.State();
    var box := new InodeBox.Get(dir.fs, nr.value);
    InodeNumber(fs1, nr.value);
    NewFileFields(box.raw);
    box.raw := NewFile(box.raw);
    box.Flush();
    return Some(box);
  }

  lemma SmallBlock(fs: Fs, ino: Inode)
    requires Small(fs, ino)
    ensures Ok(fs) && GeoOk(fs.geo) && Good(fs, GetAddr(fs, ino, 0))
    ensures |Contents(fs, ino)| == Word(ino, SIZE) <= |fs.vol[GetAddr(fs, ino, 0)]|
  {
    assert BlockOk(fs, ino, SecondOf(ino), 0);
  }

  /** What creating an inode means to a directory. */
  lemma CreatedBeside(fs: Fs, ino: Inode)
    requires Small(fs, ino) && Ok(fs) && CreateInode(fs).Some?
    ensures var (fs1, f) := CreateInode(fs).value;
      Created(fs, fs1, f) && Small(fs1, ino) && Contents(fs1, ino) == Contents(fs, ino) && IsNewFile(f) && InodeOk(fs1.geo, f)
  {
    hide FsOk, Small, Contents, CreateInode, NewFile, IsNewFile, GetInode;
    CreateIff(fs);
    var (fs1, f) := CreateInode(fs).value;
    SmallFrame(fs, fs1, ino);
    NewFileFields(GetInode(fs, Word(f, NUMBER)));
  }

  /** A small file's one block overlaid. */
  function Overlaid(fs: Fs, ino: Inode, data: seq<byte>): Fs
    requires Small(fs, ino) && |data| == Word(ino, SIZE)
  {
    PutData(fs, GetAddr(fs, ino, 0), 0, data)
  }

  /** The entries with the first roomy one split to name `nr`; a name that was absent is found then. */
  ghost predicate Names(contents: seq<byte>, rs: seq<Entry>, name: seq<byte>, nr: u32) {
    && FirstRoomy(rs, name, 0).Some?
    && var rs' := Replaced(rs, FirstRoomy(rs, name, 0).value, nr, name);
       && Directory(contents, rs')
       && (Find(rs, name) == None && |name| <= 255 ==> Find(rs', name) == Some(nr))
  }

  /**
    From `fs` to `fs'` the directory `dir` gains the file `f`: a free inode is taken, its
    record is on the disk, and the directory's entries name it; the one other change is to
    the directory's block.
   */
  ghost predicate Entered(fs: Fs, dir: Inode, name: seq<byte>, rs: seq<Entry>, fs': Fs, f: Inode)
    requires Ok(fs)
  {
    && CreateInode(fs).Some? && CreateInode(fs).value.1 == f && IsNewFile(f) && OnDisk(fs', f)
    && var fs1 := CreateInode(fs).value.0;
       && Created(fs, fs1, f) && Small(fs1, dir) && Small(fs', dir) && fs' == Overlaid(fs1, dir, Contents(fs', dir))
       && Small(fs, dir) && Slotted(Contents(fs, dir), rs, Word(f, NUMBER), name, Contents(fs', dir))
       && Names(Contents(fs', dir), rs, name, Word(f, NUMBER))
  }

  lemma EntryAdded(fs: Fs, dir: Inode, name: seq<byte>, rs: seq<Entry>, fs': Fs)
    requires Small(fs, dir) && Ok(fs) && CreateInode(fs).Some? && Directory(Contents(fs, dir), rs) && FirstRoomy(rs, name, 0).Some?
    requires var (fs1, f) := CreateInode(fs).value;
      && Small(fs1, dir) && Small(fs', dir) && fs' == Overlaid(fs1, dir, Contents(fs', dir))
      && Directory(Contents(fs', dir), Replaced(rs, FirstRoomy(rs, name, 0).value, Word(f, NUMBER), name))
      && Slotted(Contents(fs, dir), rs, Word(f, NUMBER), name, Contents(fs', dir))
    ensures Entered(fs, dir, name, rs, fs', CreateInode(fs).value.1)
  {
    hide FsOk, Small, Contents, Directory, FirstRoomy, Replaced, Find, GetInode, GetAddr, IsNewFile, CreateInode, Keeps, PutData, Recorded, Slotted;
    CreatedBeside(fs, dir);
    var (fs1, f) := CreateInode(fs).value;
    SmallBlock(fs', dir);
    OverlaidRecord(fs1, dir, Contents(fs', dir), f);
    if Find(rs, name) == None {
      AddThenSearch(rs, FirstRoomy(rs, name, 0).value, Word(f, NUMBER), name);
    }
  }

  lemma OverlaidRecord(fs: Fs, ino: Inode, data: seq<byte>, f: Inode)
    requires Small(fs, ino) && |data| == Word(ino, SIZE) && OnDisk(fs, f)
    ensures OnDisk(Overlaid(fs, ino, data), f)
  {
    hide FsOk, Small, Contents, GetInode, GetAddr, Keeps;
    SmallBlock(fs, ino);
    DataFrame(fs, GetAddr(fs, ino, 0), 0, data, f);
  }

  /** The end of `open` with O_CREAT on an absent name. `None` is a panic, on a volume with no free inode or a directory with no room. */
  method Create(dir: InodeBox, name: seq<byte>, ghost rs: seq<Entry>) returns (r: Option<InodeBox>)
    requires dir.fs.Valid() && IsDirectory(dir.raw)
    requires Small(dir.fs.State(), dir.raw) && Directory(Contents(dir.fs.State(), dir.raw), rs)
    modifies dir`raw, dir.fs`vol, dir.fs.dev.disk, dir.fs.dev.fis, dir.fs.dev.prdt
    ensures r.None? <==>
      dir.fs.unallocatedInodes == 0 || CreateInode(old(dir.fs.State())) == None || FirstRoomy(rs, name, 0) == None
    ensures r.Some? ==>
      dir.fs.Valid() && dir.raw == old(dir.raw) && Entered(old(dir.fs.State()), dir.raw, name, rs, dir.fs.State(), r.value.raw)
  {
    hide FsOk, Holds, Sized, Small, Contents, Directory, FirstRoomy, Replaced, Find, GetInode, GetAddr, IsNewFile, CreateInode, Created, Entered,
      PutData, Slotted;
    ghost var fs0 := dir.fs.State();
    r := NewInode(dir);
    if r.None? {
      return;
    }
    CreatedBeside(fs0, dir.raw);
    ghost var fs1 := dir.fs.State();
    var ok := AddToDirectory(dir, Word(r.value.raw, NUMBER), name, rs);
    if !ok {
      return None;
    }
    EntryAdded(fs0, dir.raw, name, rs, dir.fs.State());
  }
}
