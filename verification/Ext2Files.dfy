/** Several files on one volume, under every run of creating, resizing and writing them (src/fs/ext2.rs). */
module Ext2Files {
  import opened Arith
  import opened Bits
  import opened Options
  import opened Disks
  import opened Ext2Layout
  import opened Ext2Alloc
  import opened Ext2File
  import opened Ext2Contents
  import opened Ext2Create

  /** A mounted volume and the inodes of its files. */
  datatype World = World(fs: Fs, files: seq<Inode>)

  function FileBlocks(geo: Geometry, f: Inode): nat
    requires geo.blockSize > 0
  {
    BlockCount(geo, Word(f, SIZE))
  }

  ghost predicate Whole(fs: Fs, f: Inode) {
    GeoOk(fs.geo) && FileOk(fs, f, SecondOf(f), FileBlocks(fs.geo, f))
  }

  /** `b` is one of the first `n` blocks of the file, or holds its pointers. */
  ghost predicate Owns(fs: Fs, f: Inode, n: nat, b: nat)
    requires GeoOk(fs.geo) && n <= MaxIndex(fs.geo)
  {
    b in HolderBlocks(fs, f, SecondOf(f)) || exists j :: 0 <= j < n && GetAddr(fs, f, j) == b
  }

  /** No block belongs to both files, and they are different inodes. */
  ghost predicate NoShared(fs: Fs, f: Inode, g: Inode)
    requires Whole(fs, f) && Whole(fs, g)
  {
    && Word(f, NUMBER) != Word(g, NUMBER)
    && forall b: nat :: !(Owns(fs, f, FileBlocks(fs.geo, f), b) && Owns(fs, g, FileBlocks(fs.geo, g), b))
  }

  /** The file is well formed, its inode is in use, and the record on the disk is that inode. */
  ghost predicate Present(fs: Fs, f: Inode) {
    Whole(fs, f) && OnDisk(fs, f) && !FreeInode(fs, Word(f, NUMBER))
  }

  /** Of no size and with no pointer block. */
  predicate Blank(f: Inode) {
    Word(f, SIZE) == 0 && Word(f, SINGLY) == 0 && Word(f, DOUBLY) == 0
  }

  /** The records of free inodes are blank, as a formatter leaves them. */
  ghost predicate FreeBlank(fs: Fs) {
    forall nr :: FreeInode(fs, nr) ==> Blank(GetInode(fs, nr))
  }

  /** Every file is present, no two share a block or a number, and what is free is blank. */
  ghost predicate WorldOk(w: World) {
    && Ok(w.fs) && FreeBlank(w.fs)
    && (forall i :: 0 <= i < |w.files| ==> Present(w.fs, w.files[i]))
    && (forall i, k :: 0 <= i < |w.files| && 0 <= k < |w.files| && i != k ==> NoShared(w.fs, w.files[i], w.files[k]))
  }

  // -------- what a file owns --------

  /** What a file owns is in use. */
  lemma OwnsGood(fs: Fs, f: Inode, n: nat, b: nat)
    requires FileOk(fs, f, SecondOf(f), n) && Owns(fs, f, n, b)
    ensures Good(fs, b)
  {
    if b in HolderBlocks(fs, f, SecondOf(f)) {
      HolderBlocksHas(fs, f, SecondOf(f), b);
    } else {
      var j :| 0 <= j < n && GetAddr(fs, f, j) == b;
      assert BlockOk(fs, f, SecondOf(f), j);
    }
  }

  /** A grown file owns what it owned and blocks that were free. */
  lemma GrownOwns(fs: Fs, f: Inode, n: nat, fs': Fs, f': Inode, m: nat, b: nat)
    requires Grown(fs, f, n, fs', f', m) && Owns(fs', f', m, b)
    ensures Owns(fs, f, n, b) || IsFree(fs.geo, fs.vol, fs.lay, b)
  {
    hide FsOk, HoldersOk, BlockOk, AddrsApart, HolderBlocks, IsFree, GetAddr;
    if b in HolderBlocks(fs', f', SecondOf(f')) {
      HolderBlocksHas(fs', f', SecondOf(f'), b);
      var h :| HolderIn(fs', f', SecondOf(f'), h) && HolderAt(fs', f', h) == b;
      assert HolderWasFree(fs, f, SecondOf(f), fs', f', h);
      HolderBlocksHas(fs, f, SecondOf(f), b);
    } else {
      var j :| 0 <= j < m && GetAddr(fs', f', j) == b;
      if j < n {
        assert GetAddr(fs, f, j) == b;
      }
    }
  }

  lemma OwnsFewer(fs: Fs, f: Inode, n: nat, m: nat, b: nat)
    requires GeoOk(fs.geo) && m <= n <= MaxIndex(fs.geo) && Owns(fs, f, m, b)
    ensures Owns(fs, f, n, b)
  {
  }

  lemma FileFewer(fs: Fs, f: Inode, n: nat, m: nat)
    requires FileOk(fs, f, SecondOf(f), n) && m <= n
    ensures FileOk(fs, f, SecondOf(f), m)
  {
  }

  // -------- a change beside a file --------

  /** File `g` has the same blocks in both, with the same bytes in them. */
  ghost predicate SameFile(fs: Fs, fs': Fs, g: Inode)
    requires Whole(fs, g)
  {
    && SameAddrs(fs, g, fs', g, FileBlocks(fs.geo, g))
    && forall j :: 0 <= j < FileBlocks(fs.geo, g) ==> ContentsKept(fs, fs', GetAddr(fs, g, j))
  }

  /** A file none of whose blocks is touched stays as it is. */
  lemma Beside(fs: Fs, fs': Fs, touched: set<nat>, g: Inode)
    requires Whole(fs, g) && Keeps(fs, fs', touched)
    requires forall b: nat :: Owns(fs, g, FileBlocks(fs.geo, g), b) ==> b !in touched
    ensures Whole(fs', g) && fs'.geo == fs.geo && SameFile(fs, fs', g)
  {
    hide BitMeans, Counted, GroupPlaced, FreeBit, AddrsApart, HolderBlocks, BlockCount, GetAddr;
    var n := FileBlocks(fs.geo, g);
    forall h | HolderIn(fs, g, SecondOf(g), h) ensures fs'.vol[HolderAt(fs, g, h)] == fs.vol[HolderAt(fs, g, h)] {
      HolderBlocksHas(fs, g, SecondOf(g), HolderAt(fs, g, h));
      assert Owns(fs, g, n, HolderAt(fs, g, h)) && Good(fs, HolderAt(fs, g, h));
    }
    FileFrame(fs, fs', g, SecondOf(g), n);
    forall j | 0 <= j < n ensures ContentsKept(fs, fs', GetAddr(fs, g, j)) {
      var b: nat := GetAddr(fs, g, j);
      assert BlockOk(fs, g, SecondOf(g), j);
      assert Owns(fs, g, n, b);
    }
  }

  /** It owns the same blocks. */
  lemma BesideOwns(fs: Fs, fs': Fs, touched: set<nat>, g: Inode, b: nat)
    requires Whole(fs, g) && Keeps(fs, fs', touched) && fs'.geo == fs.geo
    requires forall c: nat :: Owns(fs, g, FileBlocks(fs.geo, g), c) ==> c !in touched
    requires Owns(fs', g, FileBlocks(fs.geo, g), b)
    ensures Owns(fs, g, FileBlocks(fs.geo, g), b)
  {
    hide FsOk, HoldersOk, BlockOk, AddrsApart, HolderBlocks, GetAddr, BlockCount, Keeps;
    Beside(fs, fs', touched, g);
    if b in HolderBlocks(fs', g, SecondOf(g)) {
      HolderBlocksHas(fs', g, SecondOf(g), b);
      var h :| HolderIn(fs', g, SecondOf(g), h) && HolderAt(fs', g, h) == b;
      BesideHolder(fs, fs', touched, g, h);
      HolderBlocksHas(fs, g, SecondOf(g), b);
    }
  }

  lemma BesideHolder(fs: Fs, fs': Fs, touched: set<nat>, g: Inode, h: Holder)
    requires Whole(fs, g) && Keeps(fs, fs', touched) && HolderIn(fs, g, SecondOf(g), h)
    requires forall c: nat :: Owns(fs, g, FileBlocks(fs.geo, g), c) ==> c !in touched
    ensures HolderAt(fs', g, h) == HolderAt(fs, g, h)
  {
    hide BitMeans, Counted, GroupPlaced, FreeBit, AddrsApart, BlockOk, HolderBlocks, BlockCount, GetAddr;
    if h.Second? {
      var d := HolderAt(fs, g, Double);
      assert HolderIn(fs, g, SecondOf(g), Double) && Good(fs, d);
      HolderBlocksHas(fs, g, SecondOf(g), d);
      assert Owns(fs, g, FileBlocks(fs.geo, g), d);
    }
  }

  // -------- what one operation does to the whole volume --------

  function With(files: seq<Inode>, i: nat, f: Inode): (r: seq<Inode>)
    requires i <= |files|
    ensures |r| == (if i == |files| then |files| + 1 else |files|) && r[i] == f
    ensures forall k :: 0 <= k < |files| && k != i ==> r[k] == files[k]
  {
    if i == |files| then files + [f] else files[i := f]
  }

  ghost predicate OwnedBy(w: World, i: nat, b: nat)
    requires WorldOk(w)
  {
    i < |w.files| && Present(w.fs, w.files[i]) && Owns(w.fs, w.files[i], FileBlocks(w.fs.geo, w.files[i]), b)
  }

  /**
    File `i`, perhaps a new one, becomes `f'`: it gains only blocks that were free, only its
    own used blocks change, and only its own record and its own inode bit.
   */
  ghost predicate Effect(w: World, i: nat, fs': Fs, f': Inode, touched: set<nat>)
    requires WorldOk(w)
  {
    && i <= |w.files| && Keeps(w.fs, fs', touched) && Present(fs', f')
    && (forall b :: b in touched && Good(w.fs, b) ==> OwnedBy(w, i, b))
    && (forall b: nat :: Owns(fs', f', FileBlocks(fs'.geo, f'), b) ==> OwnedBy(w, i, b) || IsFree(w.fs.geo, w.fs.vol, w.fs.lay, b))
    && (if i < |w.files| then Word(f', NUMBER) == Word(w.files[i], NUMBER) else FreeInode(w.fs, Word(f', NUMBER)))
    && (forall nr :: IsNumber(w.fs.geo, nr) && nr != Word(f', NUMBER) ==> SameRecord(w.fs, fs', nr))
    && (forall nr :: FreeInode(fs', nr) <==> FreeInode(w.fs, nr) && nr != Word(f', NUMBER))
  }

  lemma EffectSpares(w: World, i: nat, fs': Fs, f': Inode, touched: set<nat>, k: nat, b: nat)
    requires WorldOk(w) && Effect(w, i, fs', f', touched) && k < |w.files| && k != i
    requires Present(w.fs, w.files[k]) && Owns(w.fs, w.files[k], FileBlocks(w.fs.geo, w.files[k]), b)
    ensures b !in touched && !OwnedBy(w, i, b) && !IsFree(w.fs.geo, w.fs.vol, w.fs.lay, b)
  {
    hide FsOk, HoldersOk, BlockOk, AddrsApart, Owns, BlockCount, Keeps, IsFree, FreeInode, FreeBlank, OnDisk;
    OwnsGood(w.fs, w.files[k], FileBlocks(w.fs.geo, w.files[k]), b);
    GoodNotFree(w.fs, b);
    if i < |w.files| {
      assert NoShared(w.fs, w.files[i], w.files[k]);
    }
  }

  lemma GoodNotFree(fs: Fs, b: nat)
    requires Ok(fs) && Good(fs, b)
    ensures !IsFree(fs.geo, fs.vol, fs.lay, b)
  {
  }

  /** The other files are still there, with their blocks, bytes and records. */
  lemma EffectBeside(w: World, i: nat, fs': Fs, f': Inode, touched: set<nat>, k: nat)
    requires WorldOk(w) && Effect(w, i, fs', f', touched) && k < |w.files| && k != i
    ensures Present(w.fs, w.files[k]) && Present(fs', w.files[k]) && fs'.geo == w.fs.geo && SameFile(w.fs, fs', w.files[k])
    ensures forall b: nat ::
      Owns(fs', w.files[k], FileBlocks(fs'.geo, w.files[k]), b) ==> Owns(w.fs, w.files[k], FileBlocks(w.fs.geo, w.files[k]), b)
  {
    hide FsOk, HoldersOk, BlockOk, AddrsApart, Owns, BlockCount, IsFree, FreeBlank, GetInode, SameFile, FreeInode, Keeps, MaxIndex;
    var g, n := w.files[k], FileBlocks(w.fs.geo, w.files[k]);
    assert Present(w.fs, g);
    EffectNumbers(w, i, fs', f', touched, k);
    forall b: nat | Owns(w.fs, g, n, b) ensures b !in touched {
      EffectSpares(w, i, fs', f', touched, k, b);
    }
    Beside(w.fs, fs', touched, g);
    forall b: nat | Owns(fs', g, n, b) ensures Owns(w.fs, g, n, b) {
      BesideOwns(w.fs, fs', touched, g, b);
    }
  }

  lemma EffectNumbers(w: World, i: nat, fs': Fs, f': Inode, touched: set<nat>, k: nat)
    requires WorldOk(w) && Effect(w, i, fs', f', touched) && k < |w.files| && k != i
    ensures Word(f', NUMBER) != Word(w.files[k], NUMBER)
    ensures OnDisk(fs', w.files[k]) && !FreeInode(fs', Word(w.files[k], NUMBER))
  {
    hide FsOk, FileOk, Owns, BlockCount, IsFree, FreeBlank, GetInode, FreeBit, Keeps;
    assert Present(w.fs, w.files[k]);
    if i < |w.files| {
      assert NoShared(w.fs, w.files[i], w.files[k]);
    }
    assert SameRecord(w.fs, fs', Word(w.files[k], NUMBER));
  }

  lemma EffectShares(w: World, i: nat, fs': Fs, f': Inode, touched: set<nat>, k: nat)
    requires WorldOk(w) && Effect(w, i, fs', f', touched) && k < |w.files| && k != i
    ensures Present(fs', w.files[k]) && Present(fs', f') && NoShared(fs', w.files[k], f') && NoShared(fs', f', w.files[k])
  {
    hide FsOk, HoldersOk, BlockOk, AddrsApart, Owns, BlockCount, IsFree, FreeBlank, GetInode, SameFile, FreeInode, Keeps, OnDisk, MaxIndex;
    EffectBeside(w, i, fs', f', touched, k);
    EffectNumbers(w, i, fs', f', touched, k);
    forall b: nat | Owns(fs', w.files[k], FileBlocks(fs'.geo, w.files[k]), b) ensures !Owns(fs', f', FileBlocks(fs'.geo, f'), b) {
      EffectSpares(w, i, fs', f', touched, k, b);
    }
  }

  lemma EffectShared(w: World, i: nat, fs': Fs, f': Inode, touched: set<nat>, k: nat, l: nat)
    requires WorldOk(w) && Effect(w, i, fs', f', touched) && k < |w.files| && l < |w.files| && k != i && l != i && k != l
    ensures Present(fs', w.files[k]) && Present(fs', w.files[l]) && NoShared(fs', w.files[k], w.files[l])
  {
    hide FsOk, FileOk, Owns, BlockCount, IsFree, FreeBlank, HolderBlocks, SameFile, FreeInode, Keeps, OnDisk, Effect;
    EffectBeside(w, i, fs', f', touched, k);
    EffectBeside(w, i, fs', f', touched, l);
    assert NoShared(w.fs, w.files[k], w.files[l]);
  }

  lemma EffectBlank(w: World, i: nat, fs': Fs, f': Inode, touched: set<nat>)
    requires WorldOk(w) && Effect(w, i, fs', f', touched)
    ensures FreeBlank(fs')
  {
    hide FsOk, FileOk, Owns, BlockCount, IsFree, GetInode, FreeBit, Keeps, Blank;
    forall nr | FreeInode(fs', nr) ensures Blank(GetInode(fs', nr)) {
      assert FreeInode(w.fs, nr) && SameRecord(w.fs, fs', nr);
    }
  }

  lemma EffectOk(w: World, i: nat, fs': Fs, f': Inode, touched: set<nat>)
    requires WorldOk(w) && Effect(w, i, fs', f', touched)
    ensures WorldOk(World(fs', With(w.files, i, f')))
  {
    hide FsOk, FileOk, FreeInode, FreeBlank, OnDisk, Whole, With;
    var files := With(w.files, i, f');
    EffectBlank(w, i, fs', f', touched);
    EffectHead(w, i, fs', f', touched);
    forall k | 0 <= k < |files| ensures Present(fs', files[k]) {
      if k != i {
        EffectKept(w, i, fs', f', touched, k);
      }
    }
    forall k, l | 0 <= k < |files| && 0 <= l < |files| && k != l ensures NoShared(fs', files[k], files[l]) {
      if k == i {
        EffectShares(w, i, fs', f', touched, l);
      } else if l == i {
        EffectShares(w, i, fs', f', touched, k);
      } else {
        EffectShared(w, i, fs', f', touched, k, l);
      }
    }
  }

  lemma EffectHead(w: World, i: nat, fs': Fs, f': Inode, touched: set<nat>)
    requires WorldOk(w) && Effect(w, i, fs', f', touched)
    ensures Ok(fs') && fs'.geo == w.fs.geo && i <= |w.files| && Present(fs', f')
  {
  }

  lemma EffectKept(w: World, i: nat, fs': Fs, f': Inode, touched: set<nat>, k: nat)
    requires WorldOk(w) && Effect(w, i, fs', f', touched) && k < |w.files| && k != i
    ensures Present(fs', w.files[k])
  {
    EffectBeside(w, i, fs', f', touched, k);
  }

  // -------- `resize` --------

  /** After `resize` the file counts no more blocks than it has. */
  lemma ResizedBlocks(fs: Fs, f: Inode, newSize: u32)
    requires Whole(fs, f) && BlockCount(fs.geo, newSize) <= GrowthLimit(fs.geo) && Resize(fs, f, newSize).Some?
    ensures var (fs', f') := Resize(fs, f, newSize).value;
      var n, m := FileBlocks(fs.geo, f), Most(FileBlocks(fs.geo, f), BlockCount(fs.geo, newSize));
      && Grown(fs, f, n, fs', f', m) && FileBlocks(fs.geo, f') <= m && fs'.geo == fs.geo && Whole(fs', f')
      && (FileBlocks(fs.geo, f') == n || FileBlocks(fs.geo, f') == BlockCount(fs.geo, newSize))
  {
    hide FsOk, HoldersOk, BlockOk, AddrsApart, BlockCount, GrowthLimit, PutInode, Sized32, Word;
    ResizeOk(fs, f, newSize);
    var (fs', f') := Resize(fs, f, newSize).value;
    var n, m := FileBlocks(fs.geo, f), BlockCount(fs.geo, newSize);
    assert newSize != Word(f, SIZE) && n == m ==> f' == f;
    FileFewer(fs', f', Most(n, m), FileBlocks(fs.geo, f'));
  }

  /** The used blocks growth may change are pointer blocks the file had. */
  lemma GrownTouches(fs: Fs, f: Inode, n: nat, fs': Fs, f': Inode, m: nat, b: nat)
    requires Grown(fs, f, n, fs', f', m) && b in HolderBlocks(fs', f', SecondOf(f')) && Good(fs, b)
    ensures b in HolderBlocks(fs, f, SecondOf(f))
  {
    hide FsOk, HoldersOk, BlockOk, AddrsApart, HolderBlocks, IsFree, GetAddr;
    HolderBlocksHas(fs', f', SecondOf(f'), b);
    var h :| HolderIn(fs', f', SecondOf(f'), h) && HolderAt(fs', f', h) == b;
    assert HolderWasFree(fs, f, SecondOf(f), fs', f', h);
    HolderBlocksHas(fs, f, SecondOf(f), b);
  }

  lemma GrownRecords(fs: Fs, f: Inode, n: nat, fs': Fs, f': Inode, m: nat)
    requires Grown(fs, f, n, fs', f', m) && OnDisk(fs, f) && !FreeInode(fs, Word(f, NUMBER))
    ensures OnDisk(fs', f') && Word(f', NUMBER) == Word(f, NUMBER)
    ensures forall nr :: IsNumber(fs.geo, nr) && nr != Word(f', NUMBER) ==> SameRecord(fs, fs', nr)
    ensures forall nr :: FreeInode(fs', nr) <==> FreeInode(fs, nr) && nr != Word(f', NUMBER)
  {
    hide FsOk, FileOk, FreeInode, GetInode, Keeps, SameAddrs;
    forall nr ensures FreeInode(fs', nr) <==> FreeInode(fs, nr) && nr != Word(f', NUMBER) {
      SameFreeInodes(fs, fs', nr);
    }
  }

  ghost predicate CanResize(w: World, i: nat, newSize: u32)
    requires WorldOk(w)
  {
    && i < |w.files| && Present(w.fs, w.files[i])
    && BlockCount(w.fs.geo, newSize) <= GrowthLimit(w.fs.geo) && Resize(w.fs, w.files[i], newSize).Some?
  }

  lemma ResizeEffect(w: World, i: nat, newSize: u32)
    requires WorldOk(w) && CanResize(w, i, newSize)
    ensures var (fs', f') := Resize(w.fs, w.files[i], newSize).value; Effect(w, i, fs', f', HolderBlocks(fs', f', SecondOf(f')))
  {
    hide BitMeans, Counted, GroupPlaced, HoldersOk, BlockOk, AddrsApart, BlockCount, GrowthLimit, Resize, Owns, FreeInode, FreeBlank, GetInode, HolderBlocks, IsFree, SameAddrs,
      SameHolders, HoldersNew, Recorded, MaxIndex, WorldOk;
    var f := w.files[i];
    var (fs', f') := Resize(w.fs, f, newSize).value;
    var n, m := FileBlocks(w.fs.geo, f), Most(FileBlocks(w.fs.geo, f), BlockCount(w.fs.geo, newSize));
    ResizedBlocks(w.fs, f, newSize);
    GrownRecords(w.fs, f, n, fs', f', m);
    forall b | b in HolderBlocks(fs', f', SecondOf(f')) && Good(w.fs, b) ensures OwnedBy(w, i, b) {
      GrownTouches(w.fs, f, n, fs', f', m, b);
      HolderOwned(w.fs, f, n, b);
    }
    forall b: nat | Owns(fs', f', FileBlocks(fs'.geo, f'), b) ensures OwnedBy(w, i, b) || IsFree(w.fs.geo, w.fs.vol, w.fs.lay, b) {
      OwnsFewer(fs', f', m, FileBlocks(fs'.geo, f'), b);
      GrownOwns(w.fs, f, n, fs', f', m, b);
    }
  }

  lemma HolderOwned(fs: Fs, f: Inode, n: nat, b: nat)
    requires GeoOk(fs.geo) && n <= MaxIndex(fs.geo) && b in HolderBlocks(fs, f, SecondOf(f))
    ensures Owns(fs, f, n, b)
  {
  }

  // -------- creation --------

  lemma BlankWhole(fs: Fs, f: Inode)
    requires Ok(fs) && InodeOk(fs.geo, f) && Blank(f)
    ensures Whole(fs, f) && FileBlocks(fs.geo, f) == 0 && forall b: nat :: !Owns(fs, f, 0, b)
  {
    hide BitMeans, Counted, GroupPlaced, Word, BlockCount, GetAddr, MaxIndex;
    NoBlocks(fs.geo);
  }

  lemma NoBlocks(geo: Geometry)
    requires geo.blockSize > 0
    ensures BlockCount(geo, 0) == 0
  {
    DivModUnique(geo.blockSize - 1, geo.blockSize, 0, geo.blockSize - 1);
  }

  /** However far the file grows, all it then owns was free. */
  ghost predicate GrowsFresh(fs: Fs, f: Inode, m: nat)
    requires FileOk(fs, f, SecondOf(f), 0) && m <= GrowthLimit(fs.geo) && GrowTo(fs, f, 0, m).Some?
  {
    var (fs', f') := GrowTo(fs, f, 0, m).value;
    GeoOk(fs'.geo) && m <= MaxIndex(fs'.geo) && forall b: nat :: Owns(fs', f', m, b) ==> IsFree(fs.geo, fs.vol, fs.lay, b)
  }

  /** A file of no bytes that starts from nothing. */
  ghost predicate StartsEmpty(fs: Fs, f: Inode) {
    && GeoOk(fs.geo) && FileOk(fs, f, SecondOf(f), 0) && Word(f, SIZE) == 0
    && forall m :: 0 <= m <= GrowthLimit(fs.geo) && GrowTo(fs, f, 0, m).Some? ==> GrowsFresh(fs, f, m)
  }

  lemma BlankFresh(fs: Fs, f: Inode, m: nat)
    requires Ok(fs) && InodeOk(fs.geo, f) && Blank(f)
    requires FileOk(fs, f, SecondOf(f), 0) && m <= GrowthLimit(fs.geo) && GrowTo(fs, f, 0, m).Some?
    ensures GrowsFresh(fs, f, m)
  {
    hide BitMeans, Counted, GroupPlaced, FreeBit, FileOk, Owns, IsFree, GrowthLimit, Blank, MaxIndex, Grown, GrowTo;
    BlankWhole(fs, f);
    var (fs', f') := GrowTo(fs, f, 0, m).value;
    GrownBound(fs, f, 0, fs', f', m);
    forall b: nat | Owns(fs', f', m, b) ensures IsFree(fs.geo, fs.vol, fs.lay, b) {
      GrownOwns(fs, f, 0, fs', f', m, b);
    }
  }

  lemma GrownBound(fs: Fs, f: Inode, n: nat, fs': Fs, f': Inode, m: nat)
    requires Grown(fs, f, n, fs', f', m)
    ensures fs'.geo == fs.geo && GeoOk(fs.geo) && m <= MaxIndex(fs.geo)
  {
  }

  lemma PointersOwned(fs: Fs, f: Inode)
    requires FileOk(fs, f, SecondOf(f), 0)
    ensures Ok(fs) && GeoOk(fs.geo)
    ensures forall w :: (w == SINGLY || w == DOUBLY) && Word(f, w) != 0 ==> Owns(fs, f, 0, Word(f, w)) && !IsFree(fs.geo, fs.vol, fs.lay, Word(f, w))
  {
    hide BitMeans, Counted, GroupPlaced, FreeBit, BlockOk, AddrsApart, GetAddr;
    assert HolderIn(fs, f, SecondOf(f), Single) ==> Good(fs, HolderAt(fs, f, Single));
    assert HolderIn(fs, f, SecondOf(f), Double) ==> Good(fs, HolderAt(fs, f, Double));
  }

  lemma OwnsPointer(fs: Fs, f: Inode)
    requires FileOk(fs, f, SecondOf(f), 0) && GrowTo(fs, f, 0, 0).Some? && GrowsFresh(fs, f, 0)
    ensures Word(f, SINGLY) == 0 && Word(f, DOUBLY) == 0
  {
    hide BitMeans, Counted, GroupPlaced, FreeBit, FileOk, Owns, IsFree, Word;
    PointersOwned(fs, f);
    assert GrowTo(fs, f, 0, 0) == Some((fs, f));
  }

  /** The new inode is a file that starts empty exactly when the record it was made from was blank. */
  lemma CreatedEmptyIff(fs: Fs, fs': Fs, f: Inode)
    requires Created(fs, fs', f)
    ensures StartsEmpty(fs', f) <==> Blank(GetInode(fs, Word(f, NUMBER)))
  {
    hide BitMeans, Counted, GroupPlaced, FreeBit, FileOk, Keeps, SameBlocksFree, GetInode, NewFile, SameRecord, GrowsFresh, GrowthLimit, Word;
    NewFileFields(GetInode(fs, Word(f, NUMBER)));
    if Blank(f) {
      BlankWhole(fs', f);
      forall m | 0 <= m <= GrowthLimit(fs'.geo) && GrowTo(fs', f, 0, m).Some? ensures GrowsFresh(fs', f, m) {
        BlankFresh(fs', f, m);
      }
    } else if StartsEmpty(fs', f) {
      assert GrowTo(fs', f, 0, 0).Some?;
      OwnsPointer(fs', f);
      assert false;
    }
  }

  lemma CreateEffect(w: World)
    requires WorldOk(w) && CreateInode(w.fs).Some?
    ensures Effect(w, |w.files|, CreateInode(w.fs).value.0, CreateInode(w.fs).value.1, {})
  {
    hide FsOk, FileOk, CreateInode, Owns, FreeBit, GetInode, NewFile, BlockCount, IsFree, SameBlocksFree;
    CreateIff(w.fs);
    var (fs', f) := CreateInode(w.fs).value;
    NewFileFields(GetInode(w.fs, Word(f, NUMBER)));
    BlankWhole(fs', f);
  }

  // -------- writing in a block --------

  ghost predicate CanStore(w: World, i: nat, j: nat, off: nat, data: seq<byte>)
    requires WorldOk(w)
  {
    i < |w.files| && Present(w.fs, w.files[i]) && j < FileBlocks(w.fs.geo, w.files[i]) && off + |data| <= w.fs.geo.blockSize
  }

  /** The number of block `j` of a file. */
  ghost function At(fs: Fs, f: Inode, j: nat): (b: nat)
    requires Whole(fs, f) && j < FileBlocks(fs.geo, f)
    ensures b < |fs.vol| && |fs.vol[b]| == fs.geo.blockSize && Good(fs, b) && Owns(fs, f, FileBlocks(fs.geo, f), b)
  {
    assert BlockOk(fs, f, SecondOf(f), j);
    GetAddr(fs, f, j)
  }

  lemma StoreEffect(w: World, i: nat, j: nat, off: nat, data: seq<byte>)
    requires WorldOk(w) && CanStore(w, i, j, off, data)
    ensures var b := At(w.fs, w.files[i], j); Effect(w, i, PutData(w.fs, b, off, data), w.files[i], {b})
  {
    hide FsOk, HoldersOk, BlockOk, AddrsApart, BlockCount, Owns, FreeInode, FreeBlank, GetInode, HolderBlocks, IsFree, MaxIndex, WorldOk, PutData, At,
      FileOk;
    var f := w.files[i];
    var b := At(w.fs, f, j);
    var fs', n := PutData(w.fs, b, off, data), FileBlocks(w.fs.geo, f);
    StoredFile(w.fs, f, j, off, data);
    DataFrame(w.fs, b, off, data, f);
    forall nr ensures FreeInode(fs', nr) <==> FreeInode(w.fs, nr) {
      SameFreeInodes(w.fs, fs', nr);
    }
  }

  /** The file owns the same blocks after a write to one of them. */
  lemma StoredFile(fs: Fs, f: Inode, j: nat, off: nat, data: seq<byte>)
    requires Whole(fs, f) && j < FileBlocks(fs.geo, f) && off + |data| <= fs.geo.blockSize
    ensures var fs' := PutData(fs, At(fs, f, j), off, data);
      && Whole(fs', f) && fs'.geo == fs.geo && SameAddrs(fs, f, fs', f, FileBlocks(fs.geo, f))
      && forall b: nat :: Owns(fs', f, FileBlocks(fs.geo, f), b) ==> Owns(fs, f, FileBlocks(fs.geo, f), b)
  {
    hide FsOk, AddrsApart, BlockCount, GetAddr, HolderBlocks, MaxIndex, IsFree;
    var fs', n := PutData(fs, At(fs, f, j), off, data), FileBlocks(fs.geo, f);
    DataWrite(fs, f, SecondOf(f), n, j, off, data);
    forall b: nat | Owns(fs', f, n, b) ensures Owns(fs, f, n, b) {
      if b in HolderBlocks(fs', f, SecondOf(f)) {
        HolderBlocksHas(fs', f, SecondOf(f), b);
        var h :| HolderIn(fs', f, SecondOf(f), h) && HolderAt(fs', f, h) == b;
        StoredHolder(fs, f, j, off, data, h);
        HolderBlocksHas(fs, f, SecondOf(f), b);
      }
    }
  }

  lemma StoredHolder(fs: Fs, f: Inode, j: nat, off: nat, data: seq<byte>, h: Holder)
    requires Whole(fs, f) && j < FileBlocks(fs.geo, f) && off + |data| <= fs.geo.blockSize && HolderIn(fs, f, SecondOf(f), h)
    ensures HolderAt(PutData(fs, At(fs, f, j), off, data), f, h) == HolderAt(fs, f, h)
  {
    hide FsOk, AddrsApart, BlockCount, GetAddr, HolderBlocks, MaxIndex, IsFree;
    assert BlockOk(fs, f, SecondOf(f), j);
    if h.Second? {
      assert HolderIn(fs, f, SecondOf(f), Double);
    }
  }

  // -------- runs --------

  /** `resize` of a file, the making of a new one, and a write inside one block of a file. */
  datatype Op = Sizing(file: nat, newSize: u32) | Creation | Storing(file: nat, index: nat, off: nat, data: seq<byte>)

  /** What is out of bounds is not asked for. `None` is a panic: no free block, or no free inode. */
  ghost function Step(w: World, op: Op): Option<World>
    requires WorldOk(w)
  {
    match op
    case Sizing(i, newSize) =>
      if i >= |w.files| || BlockCount(w.fs.geo, newSize) > GrowthLimit(w.fs.geo) then Some(w)
      else
        assert Present(w.fs, w.files[i]);
        (match Resize(w.fs, w.files[i], newSize)
         case None => None
         case Some((fs', f')) => Some(World(fs', w.files[i := f'])))
    case Creation =>
      (match CreateInode(w.fs)
       case None => None
       case Some((fs', f)) => Some(World(fs', w.files + [f])))
    case Storing(i, j, off, data) =>
      if CanStore(w, i, j, off, data) then Some(World(PutData(w.fs, At(w.fs, w.files[i], j), off, data), w.files)) else Some(w)
  }

  /** The file an operation acts on, and whether it does. */
  ghost predicate Acts(w: World, op: Op, i: nat)
    requires WorldOk(w)
  {
    match op
    case Sizing(k, newSize) => i == k && CanResize(w, k, newSize)
    case Creation => i == |w.files| && CreateInode(w.fs).Some?
    case Storing(k, j, off, data) => i == k && CanStore(w, k, j, off, data)
  }

  ghost function ActsOn(w: World, op: Op): nat {
    match op
    case Sizing(k, _) => k
    case Creation => |w.files|
    case Storing(k, _, _, _) => k
  }

  ghost function Touched(w: World, op: Op): set<nat>
    requires WorldOk(w) && Step(w, op).Some? && Acts(w, op, ActsOn(w, op))
  {
    var w' := Step(w, op).value;
    match op
    case Sizing(k, _) => HolderBlocks(w'.fs, w'.files[k], SecondOf(w'.files[k]))
    case Creation => {}
    case Storing(k, j, _, _) => {At(w.fs, w.files[k], j)}
  }

  lemma StepEffect(w: World, op: Op)
    requires WorldOk(w) && Step(w, op).Some?
    ensures Acts(w, op, ActsOn(w, op)) ==>
      && var w', i := Step(w, op).value, ActsOn(w, op);
         && i <= |w.files| && i < |w'.files| && w'.files == With(w.files, i, w'.files[i])
         && Effect(w, i, w'.fs, w'.files[i], Touched(w, op))
    ensures !Acts(w, op, ActsOn(w, op)) ==> Step(w, op).value == w
  {
    hide FsOk, FileOk, BlockCount, GrowthLimit, Resize, CreateInode, Effect, PutData, At, HolderBlocks, NoShared, FreeBlank, OnDisk, FreeInode;
    match op
    case Sizing(i, newSize) =>
      if i < |w.files| {
        assert Present(w.fs, w.files[i]);
      }
      if CanResize(w, i, newSize) {
        ResizeEffect(w, i, newSize);
      }
    case Creation => CreateEffect(w);
    case Storing(i, j, off, data) =>
      if CanStore(w, i, j, off, data) {
        StoreEffect(w, i, j, off, data);
      }
  }

  /** Every operation keeps every file present and apart from the others. */
  lemma StepOk(w: World, op: Op)
    requires WorldOk(w) && Step(w, op).Some?
    ensures WorldOk(Step(w, op).value) && |w.files| <= |Step(w, op).value.files| && Step(w, op).value.fs.geo == w.fs.geo
  {
    hide WorldOk, Step, Effect, Acts, Touched;
    StepEffect(w, op);
    if Acts(w, op, ActsOn(w, op)) {
      var w', i := Step(w, op).value, ActsOn(w, op);
      EffectOk(w, i, w'.fs, w'.files[i], Touched(w, op));
      EffectHead(w, i, w'.fs, w'.files[i], Touched(w, op));
    }
  }

  ghost function Run(w: World, ops: seq<Op>): (r: Option<World>)
    requires WorldOk(w)
    ensures r.Some? ==> WorldOk(r.value) && |w.files| <= |r.value.files| && r.value.fs.geo == w.fs.geo
    decreases |ops|
  {
    if ops == [] then Some(w)
    else
      match Step(w, ops[0])
      case None => None
      case Some(w1) =>
        StepOk(w, ops[0]);
        Run(w1, ops[1..])
  }

  /**
    Over any run on any files, no block ever belongs to two of them, no two have the same
    inode, and what `Inode::get` reads for each is the file's own inode.
   */
  lemma FilesStayApart(w: World, ops: seq<Op>, i: nat, k: nat, b: nat)
    requires WorldOk(w) && Run(w, ops).Some? && i < |Run(w, ops).value.files| && k < |Run(w, ops).value.files| && i != k
    ensures var w' := Run(w, ops).value;
      var f, g := w'.files[i], w'.files[k];
      && Whole(w'.fs, f) && Whole(w'.fs, g) && IsNumber(w'.fs.geo, Word(f, NUMBER)) && Word(f, NUMBER) != Word(g, NUMBER)
      && GetInode(w'.fs, Word(f, NUMBER)) == f
      && !(Owns(w'.fs, f, FileBlocks(w'.fs.geo, f), b) && Owns(w'.fs, g, FileBlocks(w'.fs.geo, g), b))
  {
    hide FsOk, FileOk, BlockCount, Owns, GetInode, FreeInode, FreeBlank, Step;
    var w' := Run(w, ops).value;
    assert Present(w'.fs, w'.files[i]) && Present(w'.fs, w'.files[k]) && NoShared(w'.fs, w'.files[i], w'.files[k]);
  }

  // -------- what a run leaves in a block --------

  function Overlay(block: seq<byte>, off: nat, data: seq<byte>): (r: seq<byte>)
    ensures |r| == |block|
  {
    if off + |data| <= |block| then Splice(block, off, data) else block
  }

  /** The bytes of block `j` of file `i` after the operations' own writes to it, and nothing else, are laid over it. */
  function LaidOver(ops: seq<Op>, i: nat, j: nat, block: seq<byte>): (r: seq<byte>)
    ensures |r| == |block|
    decreases |ops|
  {
    if ops == [] then block
    else LaidOver(ops[1..], i, j, if ops[0].Storing? && ops[0].file == i && ops[0].index == j then Overlay(block, ops[0].off, ops[0].data) else block)
  }

  ghost predicate HasBlock(w: World, i: nat, j: nat) {
    i < |w.files| && Whole(w.fs, w.files[i]) && j < FileBlocks(w.fs.geo, w.files[i])
  }

  ghost function BlockOf(w: World, i: nat, j: nat): (r: seq<byte>)
    requires HasBlock(w, i, j)
    ensures |r| == w.fs.geo.blockSize
  {
    w.fs.vol[At(w.fs, w.files[i], j)]
  }

  /** An operation that does not cut file `i` off before the end of block `j`. */
  predicate Reaches(geo: Geometry, op: Op, i: nat, j: nat)
    requires geo.blockSize > 0
  {
    op.Sizing? && op.file == i ==> j < BlockCount(geo, op.newSize)
  }

  lemma BesideBlock(w: World, op: Op, i: nat, j: nat)
    requires WorldOk(w) && Step(w, op).Some? && HasBlock(w, i, j) && ActsOn(w, op) != i
    ensures var w' := Step(w, op).value; HasBlock(w', i, j) && BlockOf(w', i, j) == BlockOf(w, i, j) && w'.files[i] == w.files[i]
  {
    hide FsOk, FileOk, BlockCount, Step, Effect, Acts, Touched, Present, FreeBlank, NoShared, GetAddr;
    StepEffect(w, op);
    if Acts(w, op, ActsOn(w, op)) {
      var w', k := Step(w, op).value, ActsOn(w, op);
      EffectBeside(w, k, w'.fs, w'.files[k], Touched(w, op), i);
      SameBlock(w.fs, w'.fs, w.files[i], j);
    }
  }

  lemma SameBlock(fs: Fs, fs': Fs, f: Inode, j: nat)
    requires Whole(fs, f) && Present(fs', f) && fs'.geo == fs.geo && SameFile(fs, fs', f) && j < FileBlocks(fs.geo, f)
    ensures Whole(fs', f) && fs'.vol[At(fs', f, j)] == fs.vol[At(fs, f, j)]
  {
    hide FsOk, HoldersOk, BlockOk, AddrsApart, BlockCount, GetAddr, OnDisk, FreeInode;
    assert ContentsKept(fs, fs', GetAddr(fs, f, j));
  }

  lemma GrownBlock(fs: Fs, f: Inode, n: nat, fs': Fs, f': Inode, m: nat, j: nat)
    requires Grown(fs, f, n, fs', f', m) && j < n
    ensures ContentsKept(fs, fs', GetAddr(fs, f, j)) && GetAddr(fs', f', j) == GetAddr(fs, f, j)
  {
    hide BitMeans, Counted, GroupPlaced, FreeBit, AddrsApart, GetAddr, HolderBlocks;
    var b: nat := GetAddr(fs, f, j);
    assert BlockOk(fs, f, SecondOf(f), j);
    if b in HolderBlocks(fs, f, SecondOf(f)) {
      HolderBlocksHas(fs, f, SecondOf(f), b);
      assert false;
    }
    GrownSpares(fs, f, n, fs', f', m, b);
  }

  lemma SizedBlock(w: World, op: Op, i: nat, j: nat)
    requires WorldOk(w) && Step(w, op).Some? && HasBlock(w, i, j) && op.Sizing? && op.file == i && Reaches(w.fs.geo, op, i, j)
    ensures var w' := Step(w, op).value; HasBlock(w', i, j) && BlockOf(w', i, j) == BlockOf(w, i, j)
  {
    hide FsOk, FileOk, BlockCount, GrowthLimit, Resize, FreeBlank, NoShared, GetAddr, Grown, OnDisk, FreeInode;
    assert Present(w.fs, w.files[i]);
    if CanResize(w, i, op.newSize) {
      var f := w.files[i];
      var (fs', f') := Resize(w.fs, f, op.newSize).value;
      ResizedBlocks(w.fs, f, op.newSize);
      GrownBlock(w.fs, f, FileBlocks(w.fs.geo, f), fs', f', Most(FileBlocks(w.fs.geo, f), BlockCount(w.fs.geo, op.newSize)), j);
    }
  }

  lemma StoredBlock(w: World, op: Op, i: nat, j: nat)
    requires WorldOk(w) && Step(w, op).Some? && HasBlock(w, i, j) && op.Storing? && op.file == i
    ensures var w' := Step(w, op).value;
      && HasBlock(w', i, j)
      && BlockOf(w', i, j) == if op.index == j then Overlay(BlockOf(w, i, j), op.off, op.data) else BlockOf(w, i, j)
  {
    hide FsOk, BlockCount, FreeBlank, NoShared, GetAddr, OnDisk, FreeInode, HoldersOk, BlockOk, Owns, MaxIndex, Splice;
    assert Present(w.fs, w.files[i]);
    if CanStore(w, i, op.index, op.off, op.data) {
      StoredFile(w.fs, w.files[i], op.index, op.off, op.data);
      assert AddrsApart(w.fs, w.files[i], op.index, j);
    }
  }

  lemma StepBlock(w: World, op: Op, i: nat, j: nat)
    requires WorldOk(w) && Step(w, op).Some? && HasBlock(w, i, j) && Reaches(w.fs.geo, op, i, j)
    ensures var w' := Step(w, op).value;
      && HasBlock(w', i, j)
      && BlockOf(w', i, j) ==
           if op.Storing? && op.file == i && op.index == j then Overlay(BlockOf(w, i, j), op.off, op.data) else BlockOf(w, i, j)
  {
    hide WorldOk, Step, HasBlock, BlockOf, Overlay;
    HasFile(w, i, j);
    if ActsOn(w, op) != i {
      BesideBlock(w, op, i, j);
    } else if op.Sizing? {
      SizedBlock(w, op, i, j);
    } else {
      StoredBlock(w, op, i, j);
    }
  }

  lemma HasFile(w: World, i: nat, j: nat)
    requires HasBlock(w, i, j)
    ensures i < |w.files|
  {
  }

  /**
    Over any run of any operations on any files, a block of a file that the run does not cut
    off holds what it held with the writes to that block of that file laid over it, in order.
   */
  lemma {:induction false} BlockHistory(w: World, ops: seq<Op>, i: nat, j: nat)
    requires WorldOk(w) && Run(w, ops).Some? && HasBlock(w, i, j)
    requires forall n :: 0 <= n < |ops| ==> Reaches(w.fs.geo, ops[n], i, j)
    ensures HasBlock(Run(w, ops).value, i, j)
    ensures BlockOf(Run(w, ops).value, i, j) == LaidOver(ops, i, j, BlockOf(w, i, j))
    decreases |ops|
  {
    hide WorldOk, Step, HasBlock, BlockOf, Overlay, Reaches;
    if ops != [] {
      var w1 := Step(w, ops[0]).value;
      StepOk(w, ops[0]);
      StepBlock(w, ops[0], i, j);
      BlockHistory(w1, ops[1..], i, j);
    }
  }

  lemma StepBystander(w: World, op: Op, i: nat)
    requires WorldOk(w) && Step(w, op).Some? && i < |w.files| && ActsOn(w, op) != i
    ensures var w' := Step(w, op).value; WorldOk(w') && i < |w'.files| && w'.files[i] == w.files[i]
  {
    hide WorldOk, Step, Effect, Acts, Touched;
    StepEffect(w, op);
    StepOk(w, op);
  }

  ghost predicate Mentions(op: Op, i: nat) {
    (op.Sizing? || op.Storing?) && op.file == i
  }

  /** A file that a run does not name keeps its inode, in memory and on the disk, and every byte of every block. */
  lemma {:induction false} BystanderUnchanged(w: World, ops: seq<Op>, i: nat)
    requires WorldOk(w) && Run(w, ops).Some? && i < |w.files|
    requires forall n :: 0 <= n < |ops| ==> !Mentions(ops[n], i)
    ensures var w' := Run(w, ops).value;
      && w'.files[i] == w.files[i] && OnDisk(w'.fs, w.files[i])
      && forall j :: HasBlock(w, i, j) ==> HasBlock(w', i, j) && BlockOf(w', i, j) == BlockOf(w, i, j)
    decreases |ops|
  {
    hide FsOk, FileOk, BlockCount, Step, NoShared, FreeBlank, FreeInode, GetInode, HasBlock, BlockOf;
    if ops == [] {
      assert Present(w.fs, w.files[i]);
    } else {
      var w1 := Step(w, ops[0]).value;
      assert !Mentions(ops[0], i);
      StepBystander(w, ops[0], i);
      BystanderUnchanged(w1, ops[1..], i);
      forall j | HasBlock(w, i, j) ensures HasBlock(w1, i, j) && BlockOf(w1, i, j) == BlockOf(w, i, j) {
        BesideBlock(w, ops[0], i, j);
      }
    }
  }
}
