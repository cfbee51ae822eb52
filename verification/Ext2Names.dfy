/** A directory and the files made in it, under every run (src/fs/ext2.rs). */
module Ext2Names {
  import opened Arith
  import opened Bits
  import opened Options
  import opened Disks
  import opened Ext2Layout
  import opened Ext2Alloc
  import opened Ext2File
  import opened Ext2Dir
  import opened Ext2Contents
  import opened Ext2Create
  import opened Ext2Directories
  import opened Ext2Files

  /** The files of a volume, which of them is the directory, its entries, and the file each name was made for. */
  datatype Tree = Tree(w: World, dir: nat, rs: seq<Entry>, made: map<seq<byte>, nat>)

  ghost predicate DirOk(w: World, dir: nat, rs: seq<Entry>) {
    dir < |w.files| && Small(w.fs, w.files[dir]) && Directory(Contents(w.fs, w.files[dir]), rs)
  }

  /** The name leads to its own file. */
  ghost predicate Leads(w: World, rs: seq<Entry>, name: seq<byte>, i: nat) {
    i < |w.files| && Find(rs, name) == Some(Word(w.files[i], NUMBER))
  }

  ghost predicate TreeOk(t: Tree) {
    && WorldOk(t.w) && DirOk(t.w, t.dir, t.rs)
    && (forall name :: name in t.made ==> Leads(t.w, t.rs, name, t.made[name]))
    && (forall name, other :: name in t.made && other in t.made && name != other ==> t.made[name] != t.made[other])
  }

  /** An operation on a file other than the directory; `open` with O_CREAT. */
  datatype Act = OnFile(op: Op) | Make(name: seq<byte>)

  predicate Elsewhere(op: Op, dir: nat) {
    !op.Creation? && op.file != dir
  }

  /** The directory's bytes once the new entry is in its place. */
  ghost function WithEntry(t: Tree, nr: u32, name: seq<byte>): seq<byte>
    requires DirOk(t.w, t.dir, t.rs) && FirstRoomy(t.rs, name, 0).Some?
  {
    var before, r := Contents(t.w.fs, t.w.files[t.dir]), t.rs[FirstRoomy(t.rs, name, 0).value];
    RoomyBounded(before, t.rs, FirstRoomy(t.rs, name, 0).value);
    Insert(before, r, nr, name)
  }

  lemma RoomyBounded(buf: seq<byte>, rs: seq<Entry>, k: nat)
    requires Directory(buf, rs) && k < |rs|
    ensures Bounded(buf, rs[k])
  {
    TilesSplit(buf, 0, rs, |buf|, k);
    TilesBound(buf, rs[k].at + rs[k].size, rs[k + 1..], |buf|);
  }

  /**
    `None` is a panic: no free block, no free inode, or no room in the directory. A name
    that is there already is opened; longer names than an entry can hold are not asked for.
   */
  ghost function Take(t: Tree, a: Act): Option<Tree>
    requires TreeOk(t)
  {
    match a
    case OnFile(op) =>
      if !Elsewhere(op, t.dir) then Some(t)
      else (match Ext2Files.Step(t.w, op)
            case None => None
            case Some(w') => Some(t.(w := w')))
    case Make(name) =>
      if |name| > 255 || Find(t.rs, name).Some? then Some(t)
      else if FirstRoomy(t.rs, name, 0).None? then None
      else (match Ext2Files.Step(t.w, Creation)
            case None => None
            case Some(w1) => Entering(t, name, w1))
  }

  /** The second half of making a file: the directory's block is written back. */
  ghost function Entering(t: Tree, name: seq<byte>, w1: World): Option<Tree>
    requires WorldOk(t.w) && DirOk(t.w, t.dir, t.rs) && FirstRoomy(t.rs, name, 0).Some? && Ext2Files.Step(t.w, Creation) == Some(w1)
  {
    Ext2Files.StepOk(t.w, Creation);
    var nr := Word(w1.files[|w1.files| - 1], NUMBER);
    match Ext2Files.Step(w1, Storing(t.dir, 0, 0, WithEntry(t, nr, name)))
    case None => None
    case Some(w2) =>
      Some(Tree(w2, t.dir, Replaced(t.rs, FirstRoomy(t.rs, name, 0).value, nr, name), t.made[name := |w1.files| - 1]))
  }

  // -------- what one operation leaves in the directory --------

  /** A file of 1 to `blockSize` bytes is small, and its contents are the start of its one block. */
  lemma SmallIs(w: World, d: nat)
    requires WorldOk(w) && d < |w.files| && 0 < Word(w.files[d], SIZE) <= w.fs.geo.blockSize
    ensures Small(w.fs, w.files[d]) && HasBlock(w, d, 0) && Contents(w.fs, w.files[d]) == BlockOf(w, d, 0)[..Word(w.files[d], SIZE)]
  {
    hide BitMeans, Counted, GroupPlaced, FreeBit, HoldersOk, AddrsApart, NoShared, FreeBlank, OnDisk, FreeInode, GetAddr, MaxIndex;
    assert Present(w.fs, w.files[d]);
    OneUnit(w.fs.geo, Word(w.files[d], SIZE));
    assert BlockOk(w.fs, w.files[d], SecondOf(w.files[d]), 0);
  }

  lemma OneUnit(geo: Geometry, size: nat)
    requires 0 < size <= geo.blockSize
    ensures BlockCount(geo, size) == 1
  {
    DivModUnique(size + geo.blockSize - 1, geo.blockSize, 1, size - 1);
  }

  lemma SmallSize(w: World, d: nat, rs: seq<Entry>)
    requires DirOk(w, d, rs)
    ensures d < |w.files| && 0 < Word(w.files[d], SIZE) <= w.fs.geo.blockSize && GeoOk(w.fs.geo)
  {
  }

  /** The directory is as it was where its inode and its block are. */
  lemma DirKept(w: World, w': World, d: nat, rs: seq<Entry>)
    requires WorldOk(w) && WorldOk(w') && DirOk(w, d, rs) && d < |w'.files| && w'.files[d] == w.files[d] && w'.fs.geo == w.fs.geo
    requires HasBlock(w, d, 0) ==> HasBlock(w', d, 0) && BlockOf(w', d, 0) == BlockOf(w, d, 0)
    ensures DirOk(w', d, rs) && Contents(w'.fs, w.files[d]) == Contents(w.fs, w.files[d])
  {
    hide WorldOk, Small, Contents, BlockOf, HasBlock, Directory;
    SmallSize(w, d, rs);
    SmallIs(w, d);
    SmallIs(w', d);
  }

  /** Files keep their numbers. */
  lemma StepNumbers(w: World, op: Op, i: nat)
    requires WorldOk(w) && Ext2Files.Step(w, op).Some? && i < |w.files|
    ensures var w' := Ext2Files.Step(w, op).value; i < |w'.files| && Word(w'.files[i], NUMBER) == Word(w.files[i], NUMBER)
  {
    hide WorldOk, Ext2Files.Step, Acts, Touched;
    StepEffect(w, op);
    if Acts(w, op, ActsOn(w, op)) {
      EffectNumber(w, ActsOn(w, op), Ext2Files.Step(w, op).value, Touched(w, op));
    }
  }

  lemma EffectNumber(w: World, i: nat, w': World, touched: set<nat>)
    requires WorldOk(w) && i < |w'.files| && Effect(w, i, w'.fs, w'.files[i], touched)
    ensures i < |w.files| ==> Word(w'.files[i], NUMBER) == Word(w.files[i], NUMBER)
  {
    hide WorldOk, Keeps, Present, OwnedBy, Owns, SameRecord, FreeInode;
  }

  lemma StepDir(w: World, op: Op, d: nat, rs: seq<Entry>)
    requires WorldOk(w) && DirOk(w, d, rs) && Ext2Files.Step(w, op).Some? && ActsOn(w, op) != d
    ensures var w' := Ext2Files.Step(w, op).value;
      && WorldOk(w') && DirOk(w', d, rs) && |w.files| <= |w'.files| && w'.files[d] == w.files[d] && w'.fs.geo == w.fs.geo
      && Contents(w'.fs, w.files[d]) == Contents(w.fs, w.files[d])
  {
    hide WorldOk, Small, Contents, BlockOf, HasBlock, Directory, Ext2Files.Step;
    SmallSize(w, d, rs);
    SmallIs(w, d);
    Ext2Files.StepOk(w, op);
    StepBystander(w, op, d);
    BesideBlock(w, op, d, 0);
    DirKept(w, Ext2Files.Step(w, op).value, d, rs);
  }

  lemma OnFileOk(t: Tree, op: Op)
    requires TreeOk(t) && Elsewhere(op, t.dir) && Ext2Files.Step(t.w, op).Some?
    ensures TreeOk(t.(w := Ext2Files.Step(t.w, op).value))
  {
    hide WorldOk, DirOk, Find, Ext2Files.Step;
    StepDir(t.w, op, t.dir, t.rs);
    var w' := Ext2Files.Step(t.w, op).value;
    forall name | name in t.made ensures Leads(w', t.rs, name, t.made[name]) {
      assert Leads(t.w, t.rs, name, t.made[name]);
      StepNumbers(t.w, op, t.made[name]);
    }
  }

  // -------- making a file --------

  lemma CreationShape(w: World)
    requires WorldOk(w) && Ext2Files.Step(w, Creation).Some?
    ensures var w1 := Ext2Files.Step(w, Creation).value;
      |w1.files| == |w.files| + 1 && w1.files == w.files + [w1.files[|w.files|]] && Word(w1.files[|w.files|], NUMBER) > 0
  {
    hide FsOk, FileOk, CreateInode, FreeBit, GetInode, NewFile, Keeps, SameBlocksFree, NoShared, FreeBlank, Present;
    CreateIff(w.fs);
  }

  /** The write-back leaves the new bytes in the directory, and its inode as it was. */
  lemma Overlaying(w: World, d: nat, rs: seq<Entry>, data: seq<byte>)
    requires WorldOk(w) && DirOk(w, d, rs) && |data| == Word(w.files[d], SIZE)
    ensures Ext2Files.Step(w, Storing(d, 0, 0, data)).Some?
    ensures var w' := Ext2Files.Step(w, Storing(d, 0, 0, data)).value;
      && WorldOk(w') && w'.files == w.files && w'.fs.geo == w.fs.geo && Small(w'.fs, w.files[d]) && Contents(w'.fs, w.files[d]) == data
      && w'.fs == Overlaid(w.fs, w.files[d], data)
  {
    hide WorldOk, Directory;
    SmallSize(w, d, rs);
    SmallIs(w, d);
    StoringIs(w, d, data);
    var op := Storing(d, 0, 0, data);
    Ext2Files.StepOk(w, op);
    StoredBlock(w, op, d, 0);
    var w' := Ext2Files.Step(w, op).value;
    SmallIs(w', d);
    LaidAtStart(BlockOf(w, d, 0), data);
  }

  lemma LaidAtStart(block: seq<byte>, data: seq<byte>)
    requires |data| <= |block|
    ensures Ext2Files.Overlay(block, 0, data)[..|data|] == data
  {
  }

  lemma StoringIs(w: World, d: nat, data: seq<byte>)
    requires WorldOk(w) && d < |w.files| && HasBlock(w, d, 0) && Small(w.fs, w.files[d]) && |data| == Word(w.files[d], SIZE)
    ensures Ext2Files.Step(w, Storing(d, 0, 0, data)) == Some(World(Overlaid(w.fs, w.files[d], data), w.files))
  {
    hide FsOk, HoldersOk, BlockOk, AddrsApart, NoShared, FreeBlank, OnDisk, FreeInode, GetAddr, BlockCount, Owns, MaxIndex, Splice;
    assert Present(w.fs, w.files[d]);
  }

  lemma InsertLength(t: Tree, nr: u32, name: seq<byte>)
    requires DirOk(t.w, t.dir, t.rs) && FirstRoomy(t.rs, name, 0).Some?
    ensures |WithEntry(t, nr, name)| == Word(t.w.files[t.dir], SIZE)
    ensures Directory(WithEntry(t, nr, name), Replaced(t.rs, FirstRoomy(t.rs, name, 0).value, nr, name))
  {
    hide Insert, Directory, Replaced, FirstRoomy, FileOk, GetAddr;
    var k := FirstRoomy(t.rs, name, 0).value;
    var before := Contents(t.w.fs, t.w.files[t.dir]);
    RoomyBounded(before, t.rs, k);
    InsertDirectory(before, t.rs, k, nr, name);
  }

  /** The tree with file `i` made for `name`, its entry split from the first roomy one. */
  ghost predicate Filled(t: Tree, t': Tree, name: seq<byte>) {
    && FirstRoomy(t.rs, name, 0).Some? && |t.w.files| < |t'.w.files| && t'.dir == t.dir
    && var k, i := FirstRoomy(t.rs, name, 0).value, |t'.w.files| - 1;
       && Word(t'.w.files[i], NUMBER) > 0 && t'.made == t.made[name := i]
       && t'.rs == Replaced(t.rs, k, Word(t'.w.files[i], NUMBER), name)
       && t'.w.files == t.w.files + [t'.w.files[i]]
  }

  /** Every name leads on, and the new one to the new file. */
  lemma FilledLeads(t: Tree, t': Tree, name: seq<byte>)
    requires TreeOk(t) && |name| <= 255 && Find(t.rs, name) == None && Filled(t, t', name)
    ensures forall x :: x in t'.made ==> Leads(t'.w, t'.rs, x, t'.made[x])
  {
    hide WorldOk, DirOk, Find, Replaced, FirstRoomy, Word;
    var i, k := |t'.w.files| - 1, FirstRoomy(t.rs, name, 0).value;
    var nr := Word(t'.w.files[i], NUMBER);
    AddThenSearch(t.rs, k, nr, name);
    forall x | x in t'.made ensures Leads(t'.w, t'.rs, x, t'.made[x]) {
      if x != name {
        assert Leads(t.w, t.rs, x, t.made[x]);
        OthersUnchanged(t.rs, k, nr, name, x);
      }
    }
  }

  lemma FilledApart(t: Tree, t': Tree, name: seq<byte>)
    requires TreeOk(t) && Filled(t, t', name)
    ensures forall x, y :: x in t'.made && y in t'.made && x != y ==> t'.made[x] != t'.made[y]
  {
    hide WorldOk, DirOk, Find, Replaced, FirstRoomy, Word;
    forall x | x in t.made ensures t.made[x] < |t'.w.files| - 1 {
      assert Leads(t.w, t.rs, x, t.made[x]);
    }
  }

  lemma EnteringOk(t: Tree, name: seq<byte>, w1: World)
    requires WorldOk(t.w) && DirOk(t.w, t.dir, t.rs) && FirstRoomy(t.rs, name, 0).Some? && Ext2Files.Step(t.w, Creation) == Some(w1)
    ensures var r := Entering(t, name, w1);
      r.Some? && WorldOk(r.value.w) && r.value.dir == t.dir && DirOk(r.value.w, t.dir, r.value.rs) && r.value.w.files == w1.files
  {
    hide WorldOk, Small, Contents, Directory, Replaced, FirstRoomy, WithEntry, Ext2Files.Step, Overlaid;
    Ext2Files.StepOk(t.w, Creation);
    StepDir(t.w, Creation, t.dir, t.rs);
    var nr := Word(w1.files[|w1.files| - 1], NUMBER);
    InsertLength(t, nr, name);
    Overlaying(w1, t.dir, t.rs, WithEntry(t, nr, name));
  }

  lemma EnteringFills(t: Tree, name: seq<byte>, w1: World)
    requires WorldOk(t.w) && DirOk(t.w, t.dir, t.rs) && FirstRoomy(t.rs, name, 0).Some? && Ext2Files.Step(t.w, Creation) == Some(w1)
    requires Entering(t, name, w1).Some? && Entering(t, name, w1).value.w.files == w1.files
    ensures Filled(t, Entering(t, name, w1).value, name)
  {
    hide WorldOk, DirOk, Replaced, FirstRoomy, WithEntry, Ext2Files.Step, Word;
    CreationShape(t.w);
  }

  /** Making an absent name succeeds exactly when there is room for its entry and a free inode. */
  lemma MakeIff(t: Tree, name: seq<byte>)
    requires TreeOk(t) && |name| <= 255 && Find(t.rs, name) == None
    ensures Take(t, Make(name)).Some? <==> FirstRoomy(t.rs, name, 0).Some? && Ext2Files.Step(t.w, Creation).Some?
    ensures Take(t, Make(name)).Some? ==>
      && var t' := Take(t, Make(name)).value;
         && WorldOk(t'.w) && t'.dir == t.dir && DirOk(t'.w, t.dir, t'.rs) && Filled(t, t', name)
  {
    hide WorldOk, DirOk, Leads, Find, FirstRoomy, Ext2Files.Step, Entering, Filled;
    if FirstRoomy(t.rs, name, 0).Some? && Ext2Files.Step(t.w, Creation).Some? {
      EnteringOk(t, name, Ext2Files.Step(t.w, Creation).value);
      EnteringFills(t, name, Ext2Files.Step(t.w, Creation).value);
    }
  }

  lemma MakeOk(t: Tree, name: seq<byte>)
    requires TreeOk(t) && |name| <= 255 && Find(t.rs, name) == None && Take(t, Make(name)).Some?
    ensures TreeOk(Take(t, Make(name)).value)
  {
    hide WorldOk, DirOk, Leads, Find, Take, Filled;
    MakeIff(t, name);
    FilledLeads(t, Take(t, Make(name)).value, name);
    FilledApart(t, Take(t, Make(name)).value, name);
  }

  lemma TakeOk(t: Tree, a: Act)
    requires TreeOk(t) && Take(t, a).Some?
    ensures TreeOk(Take(t, a).value) && t.made.Keys <= Take(t, a).value.made.Keys && Take(t, a).value.dir == t.dir
  {
    hide TreeOk, Ext2Files.Step, Find, FirstRoomy, Entering;
    match a
    case OnFile(op) =>
      if Elsewhere(op, t.dir) {
        OnFileOk(t, op);
      }
    case Make(name) =>
      if |name| <= 255 && Find(t.rs, name).None? {
        MakeOk(t, name);
        MakeIff(t, name);
      }
  }

  ghost function Acting(t: Tree, acts: seq<Act>): (r: Option<Tree>)
    requires TreeOk(t)
    ensures r.Some? ==> TreeOk(r.value) && t.made.Keys <= r.value.made.Keys && r.value.dir == t.dir
    decreases |acts|
  {
    if acts == [] then Some(t)
    else
      match Take(t, acts[0])
      case None => None
      case Some(t1) =>
        TakeOk(t, acts[0]);
        Acting(t1, acts[1..])
  }

  /** A run followed by one more operation. */
  lemma {:induction false} ActingAppend(t: Tree, acts: seq<Act>, a: Act)
    requires TreeOk(t)
    ensures Acting(t, []) == Some(t)
    ensures Acting(t, acts + [a]) == if Acting(t, acts).None? then None else Take(Acting(t, acts).value, a)
    decreases |acts|
  {
    hide TreeOk, Take;
    if acts == [] {
      assert acts + [a] == [a];
      assert [a][1..] == [];
      if Take(t, a).Some? {
        TakeOk(t, a);
      }
    } else {
      assert (acts + [a])[1..] == acts[1..] + [a];
      if Take(t, acts[0]).Some? {
        TakeOk(t, acts[0]);
        ActingAppend(Take(t, acts[0]).value, acts[1..], a);
      }
    }
  }

  /** What one operation does to a lookup: only making an absent name changes it, and that name leads to its file from then on. */
  lemma TakeLookup(t: Tree, a: Act, name: seq<byte>)
    requires TreeOk(t) && Take(t, a).Some?
    ensures var t' := Take(t, a).value;
      && (name in t'.made <==> name in t.made || (a == Make(name) && |name| <= 255 && Find(t.rs, name) == None))
      && (name !in t'.made ==> Find(t'.rs, name) == Find(t.rs, name))
  {
    hide WorldOk, DirOk, Find, Replaced, WithEntry, Ext2Files.Step, FirstRoomy;
    if a.Make? && |a.name| <= 255 && Find(t.rs, a.name).None? {
      MakeIff(t, a.name);
      if name != a.name {
        var t', k := Take(t, a).value, FirstRoomy(t.rs, a.name, 0).value;
        OthersUnchanged(t.rs, k, Word(t'.w.files[|t'.w.files| - 1], NUMBER), a.name, name);
      }
    }
  }

  /** Operations on files do to the volume what they do without names; a name that is there, or too long for an entry, makes nothing. */
  lemma TakeIff(t: Tree, a: Act)
    requires TreeOk(t)
    ensures match a
            case OnFile(op) =>
              if !Elsewhere(op, t.dir) then Take(t, a) == Some(t)
              else Take(t, a) == if Ext2Files.Step(t.w, op).None? then None else Some(t.(w := Ext2Files.Step(t.w, op).value))
            case Make(name) =>
              if |name| > 255 || Find(t.rs, name).Some? then Take(t, a) == Some(t)
              else Take(t, a).Some? <==> FirstRoomy(t.rs, name, 0).Some? && Ext2Files.Step(t.w, Creation).Some?
  {
    hide TreeOk, Ext2Files.Step, Find, FirstRoomy, Entering;
    if a.Make? && |a.name| <= 255 && Find(t.rs, a.name).None? {
      MakeIff(t, a.name);
    }
  }

  // -------- over every run --------

  /** Over any run, the names that lead to files made in it are exactly the absent ones it makes. */
  lemma {:induction false} MadeIff(t: Tree, acts: seq<Act>, name: seq<byte>)
    requires TreeOk(t) && Acting(t, acts).Some?
    ensures name in Acting(t, acts).value.made <==> name in t.made || (Make(name) in acts && |name| <= 255 && Find(t.rs, name) == None)
    decreases |acts|
  {
    hide TreeOk, Take, Find;
    if acts != [] {
      TakeOk(t, acts[0]);
      TakeLookup(t, acts[0], name);
      MadeIff(Take(t, acts[0]).value, acts[1..], name);
      assert acts == [acts[0]] + acts[1..];
    }
  }

  /**
    Over any run that makes, resizes and writes files in any order: a name made in it is
    found at the end with the number of its own file, whose record is on the disk, no two
    made names lead to one number, and every other name is found as it was before.
   */
  lemma {:induction false} NamesOverRun(t: Tree, acts: seq<Act>, name: seq<byte>)
    requires TreeOk(t) && Acting(t, acts).Some?
    ensures var t' := Acting(t, acts).value;
      && (name in t'.made ==>
            var i := t'.made[name];
            i < |t'.w.files| && Find(t'.rs, name) == Some(Word(t'.w.files[i], NUMBER)) && OnDisk(t'.w.fs, t'.w.files[i]))
      && (name !in t'.made ==> Find(t'.rs, name) == Find(t.rs, name))
      && (forall other :: other in t'.made && name in t'.made && other != name ==> Find(t'.rs, other) != Find(t'.rs, name))
    decreases |acts|
  {
    hide TreeOk, Take, Find;
    if acts == [] {
      if name in t.made {
        MadeLeads(t, name);
      }
    } else {
      TakeOk(t, acts[0]);
      TakeLookup(t, acts[0], name);
      NamesOverRun(Take(t, acts[0]).value, acts[1..], name);
    }
  }

  lemma MadeLeads(t: Tree, name: seq<byte>)
    requires TreeOk(t) && name in t.made
    ensures var i := t.made[name]; i < |t.w.files| && Find(t.rs, name) == Some(Word(t.w.files[i], NUMBER)) && OnDisk(t.w.fs, t.w.files[i])
    ensures forall other :: other in t.made && other != name ==> Find(t.rs, other) != Find(t.rs, name)
  {
    hide DirOk, Find, FsOk, FileOk, GetInode, FreeBlank, FreeInode, Word, Owns;
    assert Leads(t.w, t.rs, name, t.made[name]);
    assert Present(t.w.fs, t.w.files[t.made[name]]);
    forall other | other in t.made && other != name ensures Find(t.rs, other) != Find(t.rs, name) {
      assert Leads(t.w, t.rs, other, t.made[other]);
      assert NoShared(t.w.fs, t.w.files[t.made[name]], t.w.files[t.made[other]]);
    }
  }

  // -------- the device --------

  lemma CreationIs(w: World)
    requires WorldOk(w)
    ensures Ok(w.fs)
    ensures CreateInode(w.fs).Some? ==>
      Ext2Files.Step(w, Creation) == Some(World(CreateInode(w.fs).value.0, w.files + [CreateInode(w.fs).value.1]))
  {
  }

  /** What `Create` leaves on the volume is what that step leaves. */
  lemma CreateIsMake(t: Tree, name: seq<byte>, fs': Fs, f: Inode)
    requires TreeOk(t) && |name| <= 255 && Find(t.rs, name) == None && Entered(t.w.fs, t.w.files[t.dir], name, t.rs, fs', f)
    ensures Take(t, Make(name)).Some? && Take(t, Make(name)).value.w == World(fs', t.w.files + [f])
  {
    hide WorldOk, Small, Contents, Directory, Find, Replaced, FirstRoomy, Overlaid, Insert, CreateInode, Created, Ext2Directories.Names, OnDisk;
    CreationIs(t.w);
    var w1 := Ext2Files.Step(t.w, Creation).value;
    CreationShape(t.w);
    StepDir(t.w, Creation, t.dir, t.rs);
    var nr := Word(f, NUMBER);
    InsertLength(t, nr, name);
    assert WithEntry(t, nr, name) == Contents(fs', t.w.files[t.dir]);
    Overlaying(w1, t.dir, t.rs, WithEntry(t, nr, name));
  }
}
