/** Linked directory entries in a directory's buffer, as in src/fs/ext2.rs. */
module Ext2Dir {
  import opened Arith
  import opened Bits
  import opened Options
  import opened Disks
  import opened Ext2Layout

  /** Inode number, entry size, name length and type: the fixed part of an entry. */
  const HEADER: nat := 8

  predicate Aligned(n: nat) {
    n == 0 || (n >= 4 && Aligned(n - 4))
  }

  /** A name's length, padded to a multiple of 4. */
  function Padded(length: nat): (r: nat)
    ensures length <= r < length + 4 && Aligned(r)
  {
    if length == 0 then 0 else if length < 4 then 4 else 4 + Padded(length - 4)
  }

  /** The bytes an entry with a name of that length really needs. */
  function TrueSize(length: nat): (r: nat)
    ensures HEADER + length <= r < HEADER + length + 4 && Aligned(r)
  {
    HEADER + Padded(length)
  }

  lemma {:induction false} AlignedIff(n: nat)
    ensures Aligned(n) <==> n % 4 == 0
  {
    if n >= 4 {
      AlignedIff(n - 4);
    }
  }

  lemma {:induction false} AlignedSub(m: nat, n: nat)
    requires Aligned(m) && Aligned(n) && n <= m
    ensures Aligned(m - n)
  {
    if n > 0 {
      AlignedSub(m - 4, n - 4);
    }
  }

  lemma {:induction false} PaddedMono(l: nat, m: nat)
    requires l <= m
    ensures Padded(l) <= Padded(m)
  {
    if l >= 4 {
      PaddedMono(l - 4, m - 4);
    }
  }

  /** The recursive form is the kernel's `round_up(size_of::<DirectoryEntry>() + name_length, 4)`. */
  lemma TrueSizeRoundsUp(length: nat)
    ensures TrueSize(length) == RoundUp(HEADER + length, 4)
  {
    AlignedIff(TrueSize(length));
    RoundUpLeast(HEADER + length, 4);
  }

  // -------- entries in a buffer --------

  function InodeAt(buf: seq<byte>, i: nat): u32
    requires i + HEADER <= |buf|
  {
    U32(buf, i)
  }

  function SizeAt(buf: seq<byte>, i: nat): u16
    requires i + HEADER <= |buf|
  {
    U16(buf, i + 4)
  }

  function LengthAt(buf: seq<byte>, i: nat): byte
    requires i + HEADER <= |buf|
  {
    buf[i + 6]
  }

  datatype Entry = Entry(at: nat, size: nat, inode: u32, name: seq<byte>)

  /** The bytes at `r.at` are the entry `r`: 4-aligned, and with room for its name. */
  predicate EntryIn(buf: seq<byte>, r: Entry) {
    && r.at + r.size <= |buf| && Aligned(r.size) && TrueSize(|r.name|) <= r.size
    && InodeAt(buf, r.at) == r.inode && SizeAt(buf, r.at) == r.size && LengthAt(buf, r.at) == |r.name|
    && buf[r.at + HEADER..r.at + HEADER + |r.name|] == r.name
  }

  /** The entries `rs`, one behind the other, fill the buffer from `i` to `end`. */
  predicate Tiles(buf: seq<byte>, i: nat, rs: seq<Entry>, end: nat)
    decreases |rs|
  {
    if rs == [] then i == end
    else rs[0].at == i && EntryIn(buf, rs[0]) && Tiles(buf, i + rs[0].size, rs[1..], end)
  }

  /** A directory buffer and the entries that fill it. */
  predicate Directory(buf: seq<byte>, rs: seq<Entry>) {
    Tiles(buf, 0, rs, |buf|)
  }

  lemma {:induction false} TilesBound(buf: seq<byte>, i: nat, rs: seq<Entry>, end: nat)
    requires Tiles(buf, i, rs, end)
    ensures i <= end && (rs != [] ==> i + HEADER <= end)
    ensures rs != [] ==> end <= |buf|
    decreases |rs|
  {
    if rs != [] {
      TilesBound(buf, i + rs[0].size, rs[1..], end);
    }
  }

  lemma {:induction false} TilesConcat(buf: seq<byte>, i: nat, a: seq<Entry>, mid: nat, b: seq<Entry>, end: nat)
    requires Tiles(buf, i, a, mid) && Tiles(buf, mid, b, end)
    ensures Tiles(buf, i, a + b, end)
    decreases |a|
  {
    hide EntryIn;
    if a == [] {
      assert a + b == b;
    } else {
      TilesConcat(buf, i + a[0].size, a[1..], mid, b, end);
      assert (a + b)[1..] == a[1..] + b;
    }
  }

  /** The entries from number `k` on start where entry `k` is. */
  lemma {:induction false} TilesSplit(buf: seq<byte>, i: nat, rs: seq<Entry>, end: nat, k: nat)
    requires Tiles(buf, i, rs, end) && k < |rs|
    ensures EntryIn(buf, rs[k]) && Tiles(buf, i, rs[..k], rs[k].at) && Tiles(buf, rs[k].at, rs[k..], end)
    decreases k
  {
    hide EntryIn;
    if k > 0 {
      TilesSplit(buf, i + rs[0].size, rs[1..], end, k - 1);
      assert rs[..k][1..] == rs[1..][..k - 1] && rs[1..][k - 1..] == rs[k..];
    }
  }

  lemma HoldsSame(buf: seq<byte>, buf': seq<byte>, r: Entry)
    requires EntryIn(buf, r) && |buf'| == |buf|
    requires forall j :: r.at <= j < r.at + HEADER + |r.name| ==> buf'[j] == buf[j]
    ensures EntryIn(buf', r)
  {
    var from := r.at + HEADER;
    assert buf'[from..from + |r.name|] == buf[from..from + |r.name|];
  }

  lemma {:induction false} TilesSame(buf: seq<byte>, buf': seq<byte>, i: nat, rs: seq<Entry>, end: nat)
    requires Tiles(buf, i, rs, end) && |buf'| == |buf|
    requires forall j :: 0 <= j < |buf| && i <= j < end ==> buf'[j] == buf[j]
    ensures Tiles(buf', i, rs, end)
    decreases |rs|
  {
    if rs != [] {
      TilesBound(buf, i + rs[0].size, rs[1..], end);
      TilesSame(buf, buf', i + rs[0].size, rs[1..], end);
      HoldsSame(buf, buf', rs[0]);
    }
  }

  // -------- search --------

  predicate Matches(r: Entry, name: seq<byte>) {
    r.inode != 0 && r.name == name
  }

  /** The inode of the first live entry of that name. */
  function Find(rs: seq<Entry>, name: seq<byte>): Option<u32> {
    if rs == [] then None
    else if Matches(rs[0], name) then Some(rs[0].inode)
    else Find(rs[1..], name)
  }

  /** A lookup answers the inode of the first entry that is in use and has the name, and nothing exactly when there is none. */
  lemma {:induction false} FindFirst(rs: seq<Entry>, name: seq<byte>)
    ensures match Find(rs, name)
            case None => forall k :: 0 <= k < |rs| ==> rs[k].inode == 0 || rs[k].name != name
            case Some(i) =>
              exists k :: 0 <= k < |rs| && rs[k].inode == i && i != 0 && rs[k].name == name
                && forall j :: 0 <= j < k ==> rs[j].inode == 0 || rs[j].name != name
  {
    if rs != [] && !Matches(rs[0], name) {
      FindFirst(rs[1..], name);
      match Find(rs[1..], name)
      case None =>
        forall k | 0 <= k < |rs| ensures rs[k].inode == 0 || rs[k].name != name {
          assert k > 0 ==> rs[k] == rs[1..][k - 1];
        }
      case Some(i) =>
        var k :| 0 <= k < |rs[1..]| && rs[1..][k].inode == i && rs[1..][k].name == name
          && forall j :: 0 <= j < k ==> rs[1..][j].inode == 0 || rs[1..][j].name != name;
        assert rs[k + 1] == rs[1..][k];
        forall j | 0 <= j < k + 1 ensures rs[j].inode == 0 || rs[j].name != name {
          assert j > 0 ==> rs[j] == rs[1..][j - 1];
        }
    }
  }

  lemma {:induction false} FindSplit(a: seq<Entry>, b: seq<Entry>, name: seq<byte>)
    ensures Find(a + b, name) == if Find(a, name).Some? then Find(a, name) else Find(b, name)
  {
    if a == [] {
      assert a + b == b;
    } else {
      assert (a + b)[1..] == a[1..] + b;
      FindSplit(a[1..], b, name);
    }
  }

  /** `DirectoryEntry::search` over the buffer of a directory. */
  method Search(buf: seq<byte>, name: seq<byte>, ghost rs: seq<Entry>) returns (r: Option<u32>)
    requires Directory(buf, rs)
    ensures r == Find(rs, name)
  {
    var i := 0;
    ghost var rest := rs;
    while i < |buf|
      invariant 0 <= i <= |buf| && Tiles(buf, i, rest, |buf|)
      invariant Find(rs, name) == Find(rest, name)
      decreases |buf| - i
    {
      ghost var e := rest[0];
      var at := i;
      i := i + SizeAt(buf, at);
      rest := rest[1..];
      TilesBound(buf, i, rest, |buf|);
      if InodeAt(buf, at) == 0 || LengthAt(buf, at) as nat != |name| {
        continue;
      }
      if buf[at + HEADER..at + HEADER + LengthAt(buf, at)] == name {
        return Some(InodeAt(buf, at));
      }
    }
    TilesBound(buf, i, rest, |buf|);
    return None;
  }

  // -------- adding an entry --------

  predicate Roomy(r: Entry, name: seq<byte>) {
    TrueSize(|r.name|) + TrueSize(|name|) <= r.size
  }

  /** There is room behind an entry when both names, with their headers and rounded up to 4 bytes, fit its size. */
  lemma RoomyIff(r: Entry, name: seq<byte>)
    ensures Roomy(r, name) <==> RoundUp(8 + |r.name|, 4) + RoundUp(8 + |name|, 4) <= r.size
  {
    TrueSizeRoundsUp(|r.name|);
    TrueSizeRoundsUp(|name|);
  }

  /** A new entry: its name length is stored in one byte. */
  function EntryBytes(inode: u32, size: u16, name: seq<byte>): (r: seq<byte>)
    ensures |r| == HEADER + |name|
  {
    Le32(inode) + Le16(size) + [|name| % 0x100, 1] + name
  }

  function Shrunk(r: Entry): Entry {
    r.(size := TrueSize(|r.name|))
  }

  /** What the buffer holds for the new entry: a name longer than 255 bytes loses its tail. */
  function Added(r: Entry, inode: u32, name: seq<byte>): Entry
    requires Roomy(r, name)
  {
    Entry(r.at + TrueSize(|r.name|), r.size - TrueSize(|r.name|), inode, name[..|name| % 0x100])
  }

  /** The buffer with the entry at `i` cut to `cut` bytes and a new entry of `empty` bytes behind it. */
  function Overlay(buf: seq<byte>, i: nat, cut: u16, empty: u16, inode: u32, name: seq<byte>): (b: seq<byte>)
    requires HEADER <= cut && i + cut + HEADER + |name| <= |buf|
    ensures |b| == |buf|
  {
    Splice(Splice(buf, i + 4, Le16(cut)), i + cut, EntryBytes(inode, empty, name))
  }

  predicate Bounded(buf: seq<byte>, r: Entry) {
    r.at + r.size <= |buf| && r.size < 0x1_0000
  }

  /** The buffer after the entry `r` is cut to its true size and the new one put behind it. */
  function Insert(buf: seq<byte>, r: Entry, inode: u32, name: seq<byte>): (b: seq<byte>)
    requires Bounded(buf, r) && Roomy(r, name)
    ensures |b| == |buf|
  {
    Overlay(buf, r.at, TrueSize(|r.name|), r.size - TrueSize(|r.name|), inode, name)
  }

  /** Every byte of the buffer after the insertion: the old entry's size, the new entry's header and name, and all else as it was. */
  lemma InsertBytes(buf: seq<byte>, r: Entry, inode: u32, name: seq<byte>, j: nat)
    requires Bounded(buf, r) && Roomy(r, name) && j < |buf|
    ensures var b, p := Insert(buf, r, inode, name), r.at + RoundUp(8 + |r.name|, 4);
      && p + 8 + |name| <= |buf|
      && (b[j] == buf[j] || r.at + 4 <= j < r.at + 6 || p <= j < p + 8 + |name|)
      && U16(b, r.at + 4) == p - r.at
      && U32(b, p) == inode && U16(b, p + 4) == r.at + r.size - p && b[p + 6] == |name| % 0x100 && b[p + 7] == 1 && b[p + 8..p + 8 + |name|] == name
  {
    hide Insert, TrueSize;
    TrueSizeRoundsUp(|r.name|);
    InsertFrame(buf, r, inode, name, j);
    InsertFields(buf, r, inode, name);
  }

  lemma InsertFrame(buf: seq<byte>, r: Entry, inode: u32, name: seq<byte>, j: nat)
    requires Bounded(buf, r) && Roomy(r, name) && j < |buf|
    ensures var p := r.at + TrueSize(|r.name|);
      Insert(buf, r, inode, name)[j] == buf[j] || r.at + 4 <= j < r.at + 6 || p <= j < p + 8 + |name|
  {
    hide TrueSize, EntryBytes, Le16;
  }

  lemma InsertFields(buf: seq<byte>, r: Entry, inode: u32, name: seq<byte>)
    requires Bounded(buf, r) && Roomy(r, name)
    ensures var b, p := Insert(buf, r, inode, name), r.at + TrueSize(|r.name|);
      && p + 8 + |name| <= |buf| && U16(b, r.at + 4) == p - r.at
      && U32(b, p) == inode && U16(b, p + 4) == r.at + r.size - p && b[p + 6] == |name| % 0x100 && b[p + 7] == 1 && b[p + 8..p + 8 + |name|] == name
  {
    hide Splice, TrueSize;
    var cut := TrueSize(|r.name|);
    var e := EntryBytes(inode, r.size - cut, name);
    EntryFields(inode, r.size - cut, name);
    assert e[7] == 1;
    TwoSplices(buf, r.at, cut, e, r.at + cut + |e|);
    var b, p := Insert(buf, r, inode, name), r.at + cut;
    SliceOfSlice(b, p, |e|, 8, |name|);
    assert b[p..p + |e|][7] == b[p + 7];
  }

  lemma SpliceInside(s: seq<byte>, at: nat, data: seq<byte>, o: nat)
    requires at + |data| <= |s|
    ensures o + 4 <= |data| ==> U32(Splice(s, at, data), at + o) == U32(data, o)
    ensures o + 2 <= |data| ==> U16(Splice(s, at, data), at + o) == U16(data, o)
  {
  }

  lemma EntryFields(inode: u32, size: u16, name: seq<byte>)
    ensures var e := EntryBytes(inode, size, name);
      U32(e, 0) == inode && U16(e, 4) == size && e[6] == |name| % 0x100 && e[HEADER..] == name
  {
    Le32RoundTrip(inode);
    Le16RoundTrip(size);
  }

  /** A cut at `i` and an entry at `i + cut`: every byte of the result. */
  lemma TwoSplices(buf: seq<byte>, i: nat, cut: u16, e: seq<byte>, end: nat)
    requires HEADER <= cut && |e| >= HEADER && i + cut + |e| <= end <= |buf|
    ensures var buf' := Splice(Splice(buf, i + 4, Le16(cut)), i + cut, e);
      && SizeAt(buf', i) == cut && InodeAt(buf', i) == InodeAt(buf, i) && LengthAt(buf', i) == LengthAt(buf, i)
      && InodeAt(buf', i + cut) == U32(e, 0) && SizeAt(buf', i + cut) == U16(e, 4) && LengthAt(buf', i + cut) == e[6]
      && (forall j :: 0 <= j < i || i + HEADER <= j < i + cut || end <= j < |buf| ==> buf'[j] == buf[j])
      && buf'[i + cut..i + cut + |e|] == e
  {
    var mid := Splice(buf, i + 4, Le16(cut));
    Le16RoundTrip(cut);
    SpliceInside(buf, i + 4, Le16(cut), 0);
    SpliceInside(mid, i + cut, e, 0);
    SpliceInside(mid, i + cut, e, 4);
  }

  lemma CutHolds(buf: seq<byte>, buf': seq<byte>, r: Entry, cut: nat)
    requires EntryIn(buf, r) && |buf'| == |buf| && cut == TrueSize(|r.name|)
    requires SizeAt(buf', r.at) == cut && InodeAt(buf', r.at) == InodeAt(buf, r.at) && LengthAt(buf', r.at) == LengthAt(buf, r.at)
    requires forall j :: r.at + HEADER <= j < r.at + cut ==> buf'[j] == buf[j]
    ensures EntryIn(buf', Shrunk(r))
  {
    var from := r.at + HEADER;
    assert buf'[from..from + |r.name|] == buf[from..from + |r.name|];
  }

  lemma NewHolds(buf: seq<byte>, p: nat, size: nat, inode: u32, name: seq<byte>, l: nat)
    requires p + size <= |buf| && Aligned(size) && TrueSize(|name|) <= size && l <= |name|
    requires SizeAt(buf, p) == size && InodeAt(buf, p) == inode && LengthAt(buf, p) == l
    requires buf[p..p + HEADER + |name|][HEADER..] == name
    ensures EntryIn(buf, Entry(p, size, inode, name[..l]))
  {
    PaddedMono(l, |name|);
    assert buf[p..p + HEADER + |name|][HEADER..][..l] == buf[p + HEADER..p + HEADER + l];
  }

  lemma InsertElsewhere(buf: seq<byte>, r: Entry, inode: u32, name: seq<byte>)
    requires EntryIn(buf, r) && Roomy(r, name)
    ensures EntryIn(Insert(buf, r, inode, name), Shrunk(r))
    ensures SameOutside(buf, Insert(buf, r, inode, name), r.at, r.at + r.size)
  {
    hide Splice, EntryBytes, SizeAt, InodeAt, LengthAt, Padded;
    var cut := TrueSize(|r.name|);
    TwoSplices(buf, r.at, cut, EntryBytes(inode, r.size - cut, name), r.at + r.size);
    CutHolds(buf, Insert(buf, r, inode, name), r, cut);
  }

  lemma NewBytes(buf: seq<byte>, at: nat, cut: u16, size: u16, inode: u32, name: seq<byte>)
    requires HEADER <= cut && HEADER + |name| <= size && at + cut + size <= |buf|
    ensures var buf', p := Overlay(buf, at, cut, size, inode, name), at + cut;
      && SizeAt(buf', p) == size && InodeAt(buf', p) == inode && LengthAt(buf', p) == |name| % 0x100
      && buf'[p..p + HEADER + |name|][HEADER..] == name
  {
    TwoSplices(buf, at, cut, EntryBytes(inode, size, name), at + cut + size);
    EntryFields(inode, size, name);
  }

  lemma InsertNew(buf: seq<byte>, r: Entry, inode: u32, name: seq<byte>)
    requires Bounded(buf, r) && Aligned(r.size) && Roomy(r, name)
    ensures EntryIn(Insert(buf, r, inode, name), Added(r, inode, name))
  {
    hide Overlay, EntryIn, Padded;
    var cut, l := TrueSize(|r.name|), |name| % 0x100;
    NewBytes(buf, r.at, cut, r.size - cut, inode, name);
    AlignedSub(r.size, cut);
    NewHolds(Insert(buf, r, inode, name), r.at + cut, r.size - cut, inode, name, l);
    assert Added(r, inode, name) == Entry(r.at + cut, r.size - cut, inode, name[..l]);
  }

  lemma TilesOne(buf: seq<byte>, r: Entry)
    requires EntryIn(buf, r)
    ensures Tiles(buf, r.at, [r], r.at + r.size)
  {
    assert [r][1..] == [];
  }

  lemma TilesTail(buf: seq<byte>, rs: seq<Entry>, end: nat)
    requires rs != [] && Tiles(buf, rs[0].at, rs, end)
    ensures Tiles(buf, rs[0].at + rs[0].size, rs[1..], end)
  {
  }

  lemma TilesPair(buf: seq<byte>, a: Entry, b: Entry)
    requires EntryIn(buf, a) && EntryIn(buf, b) && b.at == a.at + a.size
    ensures Tiles(buf, a.at, [a] + [b], b.at + b.size)
  {
    TilesOne(buf, a);
    TilesOne(buf, b);
    TilesConcat(buf, a.at, [a], b.at, [b], b.at + b.size);
  }

  lemma TilesThree(buf: seq<byte>, x: seq<Entry>, i: nat, p: seq<Entry>, j: nat, y: seq<Entry>)
    requires Tiles(buf, 0, x, i) && Tiles(buf, i, p, j) && Tiles(buf, j, y, |buf|)
    ensures Directory(buf, x + (p + y))
  {
    hide Tiles;
    TilesConcat(buf, i, p, j, y, |buf|);
    TilesConcat(buf, 0, x, i, p + y, |buf|);
  }

  ghost predicate SameOutside(buf: seq<byte>, buf': seq<byte>, from: nat, to: nat) {
    |buf'| == |buf| && forall j :: 0 <= j < |buf| && !(from <= j < to) ==> buf'[j] == buf[j]
  }

  /** What lies before and behind entry `k` survives any change inside it. */
  lemma BeforeEntry(buf: seq<byte>, buf': seq<byte>, rs: seq<Entry>, k: nat, from: nat, to: nat)
    requires Directory(buf, rs) && k < |rs| && rs[k].at == from && SameOutside(buf, buf', from, to)
    ensures Tiles(buf', 0, rs[..k], from)
  {
    TilesSplit(buf, 0, rs, |buf|, k);
    var front := rs[..k];
    TilesSame(buf, buf', 0, front, from);
  }

  lemma BehindEntry(buf: seq<byte>, buf': seq<byte>, rs: seq<Entry>, k: nat, from: nat, to: nat)
    requires Directory(buf, rs) && k < |rs| && rs[k].at == from && from + rs[k].size == to && SameOutside(buf, buf', from, to)
    ensures Tiles(buf', to, rs[k + 1..], |buf|)
  {
    hide EntryIn, Tiles;
    var back := rs[k..];
    TilesSplit(buf, 0, rs, |buf|, k);
    TilesTail(buf, back, |buf|);
    assert back[1..] == rs[k + 1..];
    TilesSame(buf, buf', to, rs[k + 1..], |buf|);
  }

  /** Two entries that together take the place of entry `k`, the rest of the buffer being as before. */
  lemma Stitch(buf: seq<byte>, buf': seq<byte>, rs: seq<Entry>, k: nat, a: Entry, b: Entry)
    requires Directory(buf, rs) && k < |rs| && |buf'| == |buf| && EntryIn(buf', a) && EntryIn(buf', b)
    requires a.at == rs[k].at && b.at == a.at + a.size && b.at + b.size == rs[k].at + rs[k].size
    requires SameOutside(buf, buf', a.at, b.at + b.size)
    ensures Directory(buf', rs[..k] + (([a] + [b]) + rs[k + 1..]))
  {
    hide EntryIn, Tiles, SameOutside;
    BeforeEntry(buf, buf', rs, k, a.at, b.at + b.size);
    BehindEntry(buf, buf', rs, k, a.at, b.at + b.size);
    TilesPair(buf', a, b);
    TilesThree(buf', rs[..k], a.at, [a] + [b], b.at + b.size, rs[k + 1..]);
  }

  /** The entries after entry `k` has been cut and the new one put behind it. */
  function Replaced(rs: seq<Entry>, k: nat, inode: u32, name: seq<byte>): seq<Entry>
    requires k < |rs| && Roomy(rs[k], name)
  {
    rs[..k] + (([Shrunk(rs[k])] + [Added(rs[k], inode, name)]) + rs[k + 1..])
  }

  /** Insertion keeps the directory well formed and replaces one entry by two. */
  lemma InsertDirectory(buf: seq<byte>, rs: seq<Entry>, k: nat, inode: u32, name: seq<byte>)
    requires Directory(buf, rs) && k < |rs| && Roomy(rs[k], name) && Bounded(buf, rs[k])
    ensures Directory(Insert(buf, rs[k], inode, name), Replaced(rs, k, inode, name))
  {
    hide Insert, SameOutside;
    TilesSplit(buf, 0, rs, |buf|, k);
    InsertElsewhere(buf, rs[k], inode, name);
    InsertNew(buf, rs[k], inode, name);
    Stitch(buf, Insert(buf, rs[k], inode, name), rs, k, Shrunk(rs[k]), Added(rs[k], inode, name));
  }

  /** The first entry, from number `k` on, with room for the new one behind its own name. */
  function FirstRoomy(rs: seq<Entry>, name: seq<byte>, k: nat): (r: Option<nat>)
    ensures r.Some? ==> k <= r.value < |rs| && Roomy(rs[r.value], name)
    ensures r.Some? ==> forall j :: k <= j < r.value ==> !Roomy(rs[j], name)
    ensures r.None? ==> forall j :: k <= j < |rs| ==> !Roomy(rs[j], name)
    decreases |rs| - k
  {
    if k >= |rs| then None
    else if Roomy(rs[k], name) then Some(k)
    else FirstRoomy(rs, name, k + 1)
  }

  method Store(buf: array<byte>, at: nat, data: seq<byte>)
    requires at + |data| <= buf.Length
    modifies buf
    ensures buf[..] == Splice(old(buf[..]), at, data)
  {
    forall k | 0 <= k < |data| {
      buf[at + k] := data[k];
    }
  }

  /** The stores of `add_entry`, in place: the old entry's size, and the new entry. */
  method StoreEntry(buf: array<byte>, i: nat, cut: u16, empty: u16, inode: u32, name: seq<byte>)
    requires HEADER <= cut && i + cut + HEADER + |name| <= buf.Length
    modifies buf
    ensures buf[..] == Overlay(old(buf[..]), i, cut, empty, inode, name)
  {
    Store(buf, i + 4, Le16(cut));
    Store(buf, i + cut, EntryBytes(inode, empty, name));
  }

  /** The loop of `add_entry`: where the first entry with enough slack is, its size and its true size. */
  method FindRoom(buf: seq<byte>, name: seq<byte>, ghost rs: seq<Entry>)
    returns (found: bool, i: nat, size: nat, trueSize: nat)
    requires Directory(buf, rs)
    ensures found == FirstRoomy(rs, name, 0).Some?
    ensures found ==>
      var r := rs[FirstRoomy(rs, name, 0).value];
      Bounded(buf, r) && i == r.at && size == r.size && trueSize == TrueSize(|r.name|)
  {
    hide TrueSize, SizeAt, LengthAt;
    found, i, size, trueSize := false, 0, 0, 0;
    ghost var k := 0;
    while i < |buf|
      invariant 0 <= i <= |buf| && k <= |rs|
      invariant Tiles(buf, i, rs[k..], |buf|)
      invariant FirstRoomy(rs, name, 0) == FirstRoomy(rs, name, k)
      decreases |buf| - i
    {
      assert rs[k..][0] == rs[k] && rs[k..][1..] == rs[k + 1..];
      TilesBound(buf, i + rs[k].size, rs[k + 1..], |buf|);
      size, trueSize := SizeAt(buf, i), TrueSize(LengthAt(buf, i));
      if size > trueSize && size - trueSize >= TrueSize(|name|) {
        found := true;
        return;
      }
      i := i + size;
      k := k + 1;
    }
    TilesBound(buf, i, rs[k..], |buf|);
  }

  lemma InsertIsOverlay(buf: seq<byte>, r: Entry, i: nat, cut: u16, empty: u16, inode: u32, name: seq<byte>)
    requires Bounded(buf, r) && Roomy(r, name)
    requires i == r.at && cut == TrueSize(|r.name|) && empty == r.size - cut
    ensures Insert(buf, r, inode, name) == Overlay(buf, i, cut, empty, inode, name)
  {
  }

  /** `DirectoryEntry::add_entry` on the buffer of a directory; `false` is `Err`. */
  method AddEntry(buf: array<byte>, inode: u32, name: seq<byte>, ghost rs: seq<Entry>) returns (ok: bool)
    requires Directory(buf[..], rs)
    modifies buf
    ensures match FirstRoomy(rs, name, 0)
            case None => !ok && buf[..] == old(buf[..])
            case Some(k) =>
              && ok && Bounded(old(buf[..]), rs[k]) && buf[..] == Insert(old(buf[..]), rs[k], inode, name)
              && Directory(buf[..], Replaced(rs, k, inode, name))
  {
    hide Directory, Insert, Overlay, Replaced;
    var found, i, size, trueSize := FindRoom(buf[..], name, rs);
    if !found {
      return false;
    }
    ghost var k := FirstRoomy(rs, name, 0).value;
    ghost var b := buf[..];
    InsertDirectory(b, rs, k, inode, name);
    StoreEntry(buf, i, trueSize, size - trueSize, inode, name);
    InsertIsOverlay(b, rs[k], i, trueSize, size - trueSize, inode, name);
    ghost var b' := buf[..];
    assert b' == Insert(b, rs[k], inode, name);
    assert Directory(b', Replaced(rs, k, inode, name));
    return true;
  }

  // -------- what searches see afterwards --------

  lemma FindReplaced(rs: seq<Entry>, k: nat, inode: u32, name: seq<byte>, other: seq<byte>)
    requires k < |rs| && Roomy(rs[k], name)
    ensures var added := Added(rs[k], inode, name);
      Find(Replaced(rs, k, inode, name), other) ==
        if Find(rs[..k + 1], other).Some? then Find(rs[..k + 1], other)
        else if Matches(added, other) then Some(inode)
        else Find(rs[k + 1..], other)
    ensures Find(rs, other) == if Find(rs[..k + 1], other).Some? then Find(rs[..k + 1], other) else Find(rs[k + 1..], other)
  {
    hide Find;
    var cut, added := Shrunk(rs[k]), Added(rs[k], inode, name);
    assert rs == rs[..k + 1] + rs[k + 1..] && rs[..k + 1] == rs[..k] + [rs[k]];
    FindSplit(rs[..k + 1], rs[k + 1..], other);
    FindSplit(rs[..k], [rs[k]], other);
    FindSplit(rs[..k], ([cut] + [added]) + rs[k + 1..], other);
    FindSplit([cut] + [added], rs[k + 1..], other);
    FindSplit([cut], [added], other);
    FindOne(rs[k], other);
    FindOne(cut, other);
    FindOne(added, other);
  }

  lemma FindOne(r: Entry, name: seq<byte>)
    ensures Find([r], name) == if Matches(r, name) then Some(r.inode) else None
  {
    assert [r][1..] == [];
  }

  /** After adding an absent name, a search finds the new inode exactly when the name fits one byte of length and the inode is not 0. */
  lemma AddThenSearch(rs: seq<Entry>, k: nat, inode: u32, name: seq<byte>)
    requires k < |rs| && Roomy(rs[k], name) && Find(rs, name) == None
    ensures Find(Replaced(rs, k, inode, name), name) == Some(inode) <==> |name| <= 255 && inode != 0
  {
    hide Find;
    FindReplaced(rs, k, inode, name, name);
    if |name| <= 255 {
      assert name[..|name| % 0x100] == name;
    }
  }

  /** Every other name resolves as before. */
  lemma OthersUnchanged(rs: seq<Entry>, k: nat, inode: u32, name: seq<byte>, other: seq<byte>)
    requires k < |rs| && Roomy(rs[k], name) && |name| <= 255 && other != name
    ensures Find(Replaced(rs, k, inode, name), other) == Find(rs, other)
  {
    hide Find;
    FindReplaced(rs, k, inode, name, other);
    assert name[..|name| % 0x100] == name;
  }

  /** A name of 256 bytes or more is entered under its first `length % 256` bytes. */
  lemma LongNameAliases(rs: seq<Entry>, k: nat, inode: u32, name: seq<byte>)
    requires k < |rs| && Roomy(rs[k], name) && |name| > 255 && inode != 0
    requires Find(rs, name[..|name| % 0x100]) == None
    ensures Find(Replaced(rs, k, inode, name), name[..|name| % 0x100]) == Some(inode)
  {
    FindReplaced(rs, k, inode, name, name[..|name| % 0x100]);
  }

  ghost predicate Within(r: Entry, rs: seq<Entry>) {
    exists j :: 0 <= j < |rs| && rs[j].at <= r.at && r.at + r.size <= rs[j].at + rs[j].size
  }

  /** Every entry after the insertion lies inside an entry from before: no block boundary is newly crossed. */
  lemma NoNewBoundary(rs: seq<Entry>, k: nat, inode: u32, name: seq<byte>, m: nat)
    requires k < |rs| && Roomy(rs[k], name) && m < |Replaced(rs, k, inode, name)|
    ensures Within(Replaced(rs, k, inode, name)[m], rs)
  {
    var r := Replaced(rs, k, inode, name)[m];
    var j := if m <= k then m else m - 1;
    assert rs[j].at <= r.at && r.at + r.size <= rs[j].at + rs[j].size;
  }
}
