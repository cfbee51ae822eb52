/** A new inode on a volume, as the end of `open` in src/fs/ext2.rs makes it. */
module Ext2Create {
  import opened Arith
  import opened Bits
  import opened Options
  import opened Disks
  import opened Ext2Layout
  import opened Ext2Alloc
  import opened Ext2File

  /** The inode `open` writes for a new regular file: its type and permissions, and one link; the rest is left as found. */
  function NewFile(ino: Inode): Inode {
    Splice(Splice(ino, 0, Le16(0x81ed)), 26, Le16(1))
  }

  /** A regular file, with the permissions rwxr-xr-x, and one link. */
  predicate IsNewFile(ino: Inode) {
    U16(ino, 0) == 0x81ed && U16(ino, 26) == 1
  }

  lemma NewFileFields(ino: Inode)
    ensures IsNewFile(NewFile(ino))
    ensures forall w :: 0 < w < 32 && w != 6 ==> Word(NewFile(ino), w) == Word(ino, w)
    ensures forall x :: 2 <= x < 26 || 28 <= x < 128 ==> NewFile(ino)[x] == ino[x]
  {
    Le16RoundTrip(0x81ed);
    Le16RoundTrip(1);
  }

  /** `nr` is the number of an inode that is free. */
  ghost predicate FreeInode(fs: Fs, nr: nat) {
    && Ok(fs) && IsNumber(fs.geo, nr)
    && FreeBit(fs.geo, fs.vol, fs.lay, OfInodes, GetBlockGroup(fs.geo, nr), GetTableIndex(fs.geo, nr))
  }

  lemma SameFreeInodes(fs: Fs, fs': Fs, nr: nat)
    requires Ok(fs) && Ok(fs') && fs'.geo == fs.geo && SameInodeMaps(fs, fs')
    ensures FreeInode(fs', nr) <==> FreeInode(fs, nr)
  {
    hide BitMeans, Counted;
    if IsNumber(fs.geo, nr) {
      assert GroupPlaced(fs.geo, fs.vol, fs.lay, GetBlockGroup(fs.geo, nr));
    }
  }

  ghost predicate SameBlocksFree(fs: Fs, fs': Fs) {
    Ok(fs) && Ok(fs') && forall b: nat :: IsFree(fs'.geo, fs'.vol, fs'.lay, b) <==> IsFree(fs.geo, fs.vol, fs.lay, b)
  }

  lemma InodeTakenKeeps(t: Taking)
    requires CanTake(t) && t.k.OfInodes?
    ensures var fs, fs' := Fs(t.geo, t.lay, t.vol), Fs(t.geo, t.lay, After(t)); Keeps(fs, fs', {}) && SameBlocksFree(fs, fs')
  {
    hide BitMeans, Counted, GroupPlaced, After;
    AfterOk(t);
    AfterDesc(t, t.g);
    FreesAreData(Fs(t.geo, t.lay, t.vol));
    forall b: nat ensures IsFree(t.geo, After(t), t.lay, b) <==> IsFree(t.geo, t.vol, t.lay, b) {
      AfterFree(t, OfBlocks, GroupOf(t.geo, b), BitIn(t.geo, b));
    }
    forall b | 0 <= b < |t.vol| && Plain(t.lay, b) ensures After(t)[b] == t.vol[b] {
      AfterBlocks(t, b);
    }
  }

  /** The number made of a free inode bit leads back to it. */
  lemma NumberHome(fs: Fs, g: nat, i: nat)
    requires Ok(fs) && FreeBit(fs.geo, fs.vol, fs.lay, OfInodes, g, i)
    ensures var nr := Number(fs.geo, OfInodes, g, i);
      IsNumber(fs.geo, nr) && FreeInode(fs, nr) && GetBlockGroup(fs.geo, nr) == g && GetTableIndex(fs.geo, nr) == i
  {
    hide Counted, GroupPlaced, FreeBit;
    assert BitMeans(fs.geo, fs.vol, fs.lay, OfInodes, g, i);
    assert g < fs.geo.groups by {
      FreeBitGroup(fs, g, i);
    }
    InodeHomeIff(fs.geo, g, i);
    UnitsOrdered(fs.geo.inodesPerGroup, g, fs.geo.groups);
  }

  lemma FreeBitGroup(fs: Fs, g: nat, i: nat)
    requires Ok(fs) && FreeBit(fs.geo, fs.vol, fs.lay, OfInodes, g, i)
    ensures g < fs.geo.groups
  {
  }

  /** Taking an inode: that one is free no more, and no record, no used data block and no free block changes. */
  ghost predicate InodeTaken(fs: Fs, fs': Fs, nr: nat) {
    && FreeInode(fs, nr) && Keeps(fs, fs', {}) && SameBlocksFree(fs, fs')
    && (forall n :: IsNumber(fs.geo, n) ==> SameRecord(fs, fs', n))
    && (forall n :: FreeInode(fs', n) <==> FreeInode(fs, n) && n != nr)
  }

  lemma TakeInode(fs: Fs)
    requires Ok(fs)
    ensures match FsTake(fs.geo, fs.vol, fs.lay, OfInodes, 0)
      case None => forall nr :: !FreeInode(fs, nr)
      case Some((vol', g, i)) =>
        && InodeTaken(fs, fs.(vol := vol'), Number(fs.geo, OfInodes, g, i))
        && GetBlockGroup(fs.geo, Number(fs.geo, OfInodes, g, i)) == g
  {
    hide BitMeans, Counted, GroupPlaced, FreeBit, After, FsTake, Keeps, SameBlocksFree, InodeTaken, FreeInode;
    FsTakeIff(fs.geo, fs.vol, fs.lay, OfInodes, 0);
    match FsTake(fs.geo, fs.vol, fs.lay, OfInodes, 0)
    case None =>
      forall nr ensures !FreeInode(fs, nr) {
        NoneFree(fs, nr);
      }
    case Some((vol', g, i)) =>
      TakeOneInode(fs, Taking(fs.geo, fs.vol, fs.lay, OfInodes, g, i));
  }

  lemma NoneFree(fs: Fs, nr: nat)
    requires Ok(fs) && forall g, i :: 0 <= g ==> !FreeBit(fs.geo, fs.vol, fs.lay, OfInodes, g, i)
    ensures !FreeInode(fs, nr)
  {
    hide FsOk, FreeBit;
  }

  lemma TakeOneInode(fs: Fs, t: Taking)
    requires Ok(fs) && t.geo == fs.geo && t.vol == fs.vol && t.lay == fs.lay && t.k.OfInodes? && CanTake(t)
    ensures InodeTaken(fs, fs.(vol := After(t)), Number(fs.geo, OfInodes, t.g, t.i))
    ensures GetBlockGroup(fs.geo, Number(fs.geo, OfInodes, t.g, t.i)) == t.g
  {
    hide BitMeans, Counted, GroupPlaced, FreeBit, After, GetInode;
    var fs', nr := fs.(vol := After(t)), Number(fs.geo, OfInodes, t.g, t.i);
    NumberHome(fs, t.g, t.i);
    InodeTakenKeeps(t);
    forall n | IsNumber(fs.geo, n) ensures SameRecord(fs, fs', n) {
      InodeBlockRole(fs, n);
      AfterBlocks(t, InodeBlock(fs, n));
      RecordFrame(fs, fs', n);
    }
    forall n ensures FreeInode(fs', n) <==> FreeInode(fs, n) && n != nr {
      if IsNumber(fs.geo, n) {
        AfterFree(t, OfInodes, GetBlockGroup(fs.geo, n), GetTableIndex(fs.geo, n));
        if n != nr && GetBlockGroup(fs.geo, n) == t.g && GetTableIndex(fs.geo, n) == t.i {
          HomeInjective(fs.geo, n, nr);
          assert false;
        }
      }
    }
  }

  /** The inode taken and its record written: `open` up to the directory entry. `None` is the panic on a volume with no free inode. */
  ghost function CreateInode(fs: Fs): Option<(Fs, Inode)>
    requires Ok(fs)
  {
    match FsTake(fs.geo, fs.vol, fs.lay, OfInodes, 0)
    case None => None
    case Some((vol', g, i)) =>
      TakeInode(fs);
      var fs1, nr := fs.(vol := vol'), Number(fs.geo, OfInodes, g, i);
      InodeNumber(fs1, nr);
      NewFileFields(GetInode(fs1, nr));
      Some((PutInode(fs1, NewFile(GetInode(fs1, nr))), NewFile(GetInode(fs1, nr))))
  }

  lemma InodeNumber(fs: Fs, nr: nat)
    requires Ok(fs) && IsNumber(fs.geo, nr)
    ensures Word(GetInode(fs, nr), NUMBER) == nr && InodeOk(fs.geo, GetInode(fs, nr))
  {
  }

  /**
    A free inode is used now and its record says so; every other record, every used data
    block, every free block and which blocks are free stay as they were.
   */
  ghost predicate Created(fs: Fs, fs': Fs, f: Inode) {
    && FreeInode(fs, Word(f, NUMBER)) && f == NewFile(GetInode(fs, Word(f, NUMBER))) && OnDisk(fs', f)
    && Keeps(fs, fs', {}) && SameBlocksFree(fs, fs')
    && (forall n :: IsNumber(fs.geo, n) && n != Word(f, NUMBER) ==> SameRecord(fs, fs', n))
    && (forall n :: FreeInode(fs', n) <==> FreeInode(fs, n) && n != Word(f, NUMBER))
  }

  lemma CreateIff(fs: Fs)
    requires Ok(fs)
    ensures CreateInode(fs).Some? <==> exists nr :: FreeInode(fs, nr)
    ensures CreateInode(fs).Some? ==> Created(fs, CreateInode(fs).value.0, CreateInode(fs).value.1)
  {
    hide BitMeans, Counted, GroupPlaced, FsTake, FreeInode, GetInode, PutInode, NewFile, InodeTaken, Created;
    TakeInode(fs);
    match FsTake(fs.geo, fs.vol, fs.lay, OfInodes, 0)
    case None =>
    case Some((vol', g, i)) => CreateRecord(fs, fs.(vol := vol'), Number(fs.geo, OfInodes, g, i));
  }

  lemma CreateNumber(fs: Fs)
    requires Ok(fs) && CreateInode(fs).Some?
    ensures FsTake(fs.geo, fs.vol, fs.lay, OfInodes, 0).Some?
    ensures var (_, g, i) := FsTake(fs.geo, fs.vol, fs.lay, OfInodes, 0).value;
      Word(CreateInode(fs).value.1, NUMBER) == Number(fs.geo, OfInodes, g, i)
  {
    hide BitMeans, Counted, GroupPlaced, FreeBit, FsTake, GetInode, PutInode, NewFile, InodeTaken, Word, Created, FreeInode;
    TakeInode(fs);
    var (vol', g, i) := FsTake(fs.geo, fs.vol, fs.lay, OfInodes, 0).value;
    var fs1, nr := fs.(vol := vol'), Number(fs.geo, OfInodes, g, i);
    CreateRecord(fs, fs1, nr);
  }

  lemma LowestNumber(fs: Fs, g: nat, i: nat, nr: nat)
    requires Ok(fs) && FreeBit(fs.geo, fs.vol, fs.lay, OfInodes, g, i) && FreeInode(fs, nr)
    requires forall h, j :: 0 <= h < g ==> !FreeBit(fs.geo, fs.vol, fs.lay, OfInodes, h, j)
    requires forall j: nat :: j < i ==> !FreeBit(fs.geo, fs.vol, fs.lay, OfInodes, g, j)
    ensures Number(fs.geo, OfInodes, g, i) <= nr
  {
    hide Counted, GroupPlaced, MapBits, FreeBit;
    assert BitMeans(fs.geo, fs.vol, fs.lay, OfInodes, g, i);
    var n, h, j := fs.geo.inodesPerGroup, GetBlockGroup(fs.geo, nr), GetTableIndex(fs.geo, nr);
    assert nr - 1 == n * h + j;
    if h > g {
      UnitsOrdered(n, g, h);
    }
  }

  /** The inode taken is the lowest that is free. */
  lemma CreateLowest(fs: Fs, nr: nat)
    requires Ok(fs) && CreateInode(fs).Some? && FreeInode(fs, nr)
    ensures Word(CreateInode(fs).value.1, NUMBER) <= nr
  {
    hide BitMeans, Counted, GroupPlaced, FreeBit, FsTake, CreateInode, FreeInode;
    CreateNumber(fs);
    FsTakeFirst(fs.geo, fs.vol, fs.lay, OfInodes, 0);
    var (_, g, i) := FsTake(fs.geo, fs.vol, fs.lay, OfInodes, 0).value;
    LowestNumber(fs, g, i, nr);
  }

  lemma CreateRecord(fs: Fs, fs1: Fs, nr: nat)
    requires InodeTaken(fs, fs1, nr)
    ensures FreeInode(fs, nr) && Ok(fs1) && fs1.geo == fs.geo && IsNumber(fs1.geo, nr)
    ensures var f := NewFile(GetInode(fs1, nr));
      Word(f, NUMBER) == nr && InodeOk(fs1.geo, f) && Created(fs, PutInode(fs1, f), f)
  {
    hide FsOk, FreeBit, GetInode, PutInode, NewFile, IsFree;
    InodeNumber(fs1, nr);
    NewFileFields(GetInode(fs1, nr));
    var f := NewFile(GetInode(fs1, nr));
    var fs' := PutInode(fs1, f);
    FlushRecords(fs1, f, f);
    FlushKeeps(fs1, f);
    KeepsTransitive(fs, fs1, fs', {});
    PutInodeOk(fs1, f);
    forall n | IsNumber(fs.geo, n) && n != nr ensures SameRecord(fs, fs', n) {
      assert SameRecord(fs, fs1, n) && SameRecord(fs1, fs', n);
    }
    assert SameRecord(fs, fs1, nr);
    forall n ensures FreeInode(fs', n) <==> FreeInode(fs, n) && n != nr {
      SameFreeInodes(fs1, fs', n);
    }
  }
}
