/** The chunk loops of `Inode::read` and `Inode::write` in src/fs/ext2.rs, on the bytes of the disk. */
module Ext2Chunks {
  import opened Arith
  import opened Bits
  import opened Disks
  import opened Ahci

  /** How many blocks a transfer visits, and how many bytes it moves at the `k`-th. */
  function ChunkCount(size: nat, bytes: nat): nat
    requires size > 0
  {
    DivCeil(bytes, size)
  }

  function ChunkSize(size: nat, bytes: nat, k: nat): nat {
    if (k + 1) * size <= bytes then size else if k * size <= bytes then bytes - k * size else 0
  }

  /** The count as the loops compute it, after `moved` bytes. */
  function NextCount(size: nat, bytes: nat, moved: nat): nat
    requires size > 0
  {
    if moved + size <= bytes then size else bytes % size
  }

  /** The loop's arithmetic gives every visited block its chunk, never an empty one. */
  lemma NextCountIs(size: nat, bytes: nat, k: nat)
    requires size > 0 && k * size < bytes
    ensures NextCount(size, bytes, k * size) == ChunkSize(size, bytes, k) > 0
    ensures (k + 1) * size <= bytes || k * size + ChunkSize(size, bytes, k) == bytes
  {
    assert (k + 1) * size == k * size + size;
    if k * size + size > bytes {
      DivModUnique(bytes, size, k, bytes - k * size);
    }
  }

  lemma VisitedIff(size: nat, bytes: nat, k: nat)
    requires size > 0
    ensures k * size < bytes <==> k < ChunkCount(size, bytes)
  {
    DivCeilLeast(bytes, size);
    if k < ChunkCount(size, bytes) && k * size >= bytes {
      assert false;
    }
    if k * size < bytes && k >= ChunkCount(size, bytes) {
      MulMono(size, ChunkCount(size, bytes), k);
      assert false;
    }
  }

  function Moved(size: nat, bytes: nat, k: nat): nat {
    if k == 0 then 0 else Moved(size, bytes, k - 1) + ChunkSize(size, bytes, k - 1)
  }

  lemma {:induction false} MovedIs(size: nat, bytes: nat, k: nat)
    requires size > 0
    ensures Moved(size, bytes, k) == if k * size <= bytes then k * size else bytes
    decreases k
  {
    if k > 0 {
      MovedIs(size, bytes, k - 1);
      assert k * size == (k - 1) * size + size;
    }
  }

  /** The chunks add up to the bytes asked for. */
  lemma ChunksSum(size: nat, bytes: nat)
    requires size > 0
    ensures Moved(size, bytes, ChunkCount(size, bytes)) == bytes
  {
    MovedIs(size, bytes, ChunkCount(size, bytes));
    DivCeilLeast(bytes, size);
  }

  // -------- what the loops do to a buffer and to the disk --------

  /** A file: its block size and the byte address of each of its blocks. */
  datatype Extent = Extent(size: nat, starts: seq<nat>)

  /** The `k`-th transfer lies on a disk of `length` bytes; the whole of `offset` is added to the block's address. */
  predicate InReach(x: Extent, length: nat, offset: nat, bytes: nat, k: nat)
    requires x.size > 0
  {
    && Quot(offset, x.size) + k < |x.starts|
    && x.starts[Quot(offset, x.size) + k] + offset + ChunkSize(x.size, bytes, k) <= length
  }

  ghost predicate AllInReach(x: Extent, length: nat, offset: nat, bytes: nat) {
    x.size > 0 && forall k :: 0 <= k < ChunkCount(x.size, bytes) ==> InReach(x, length, offset, bytes, k)
  }

  /** What the `k`-th turn of a read fetches. */
  ghost function Fetched(disk: seq<byte>, x: Extent, offset: nat, bytes: nat, k: nat): (r: seq<byte>)
    requires AllInReach(x, |disk|, offset, bytes) && k < ChunkCount(x.size, bytes)
    ensures |r| <= x.size && |r| <= bytes
  {
    assert InReach(x, |disk|, offset, bytes, k);
    ChunkFits(x.size, bytes, k);
    var at := x.starts[Quot(offset, x.size) + k] + offset;
    disk[at..at + ChunkSize(x.size, bytes, k)]
  }

  /** The buffer after the first `k` turns of the loop in `read`: each lands at the buffer's start. */
  ghost function ReadChunks(disk: seq<byte>, x: Extent, offset: nat, bytes: nat, buf: seq<byte>, k: nat): (r: seq<byte>)
    requires AllInReach(x, |disk|, offset, bytes) && k <= ChunkCount(x.size, bytes) && bytes <= |buf|
    ensures |r| == |buf|
    decreases k
  {
    if k == 0 then buf
    else Splice(ReadChunks(disk, x, offset, bytes, buf, k - 1), 0, Fetched(disk, x, offset, bytes, k - 1))
  }

  lemma ChunkFits(size: nat, bytes: nat, k: nat)
    ensures ChunkSize(size, bytes, k) <= size && ChunkSize(size, bytes, k) <= bytes
  {
    assert (k + 1) * size == k * size + size;
  }

  // -------- when that is what a file's reader wants --------

  predicate HasByte(x: Extent, p: nat) {
    x.size > 0 && Quot(p, x.size) < |x.starts|
  }

  function ByteAt(x: Extent, p: nat): nat
    requires HasByte(x, p)
  {
    x.starts[Quot(p, x.size)] + p % x.size
  }

  /** The blocks lie on a disk of `length` bytes, on a grid of the block size, all different. */
  ghost predicate Gridded(x: Extent, length: nat) {
    && x.size > 0
    && (forall i :: 0 <= i < |x.starts| ==> x.starts[i] + x.size <= length)
    && (forall i, j :: 0 <= i < |x.starts| && 0 <= j < |x.starts| && i != j ==> OnGrid(x.size, x.starts[i], x.starts[j]))
  }

  ghost predicate OnGrid(size: nat, a: nat, b: nat) {
    a + size == b || a + 2 * size <= b || b + size <= a
  }

  /** The file has bytes `offset` to `offset + bytes`, and the loop's transfers lie on the disk. */
  ghost predicate Served(x: Extent, length: nat, offset: nat, bytes: nat) {
    && Gridded(x, length) && AllInReach(x, length, offset, bytes)
    && forall p :: offset <= p < offset + bytes ==> HasByte(x, p)
  }

  /** Byte `p` of the file, on `disk`, is byte `p - offset` of `buf`. */
  predicate Agrees(disk: seq<byte>, x: Extent, offset: nat, buf: seq<byte>, p: nat) {
    && HasByte(x, p) && ByteAt(x, p) < |disk| && 0 <= p - offset < |buf|
    && buf[p - offset] == disk[ByteAt(x, p)]
  }

  /** The sectors of the `k`-th transfer stay inside its bounce buffer. */
  predicate Contained(x: Extent, offset: nat, bytes: nat, k: nat)
    requires x.size > 0
  {
    Quot(offset, x.size) + k < |x.starts| ==> FitsBounce(x.starts[Quot(offset, x.size) + k] + offset, ChunkSize(x.size, bytes, k))
  }

  /** No transfer leaves its bounce buffer, and the buffer ends up with the file's bytes. */
  ghost predicate ReadRight(disk: seq<byte>, x: Extent, offset: nat, bytes: nat, buf: seq<byte>)
    requires Served(x, |disk|, offset, bytes) && bytes <= |buf|
  {
    && (forall k :: 0 <= k < ChunkCount(x.size, bytes) ==> Contained(x, offset, bytes, k))
    && Delivered(disk, x, offset, bytes, buf)
  }

  ghost predicate Delivered(disk: seq<byte>, x: Extent, offset: nat, bytes: nat, buf: seq<byte>)
    requires Served(x, |disk|, offset, bytes) && bytes <= |buf|
  {
    var r := ReadChunks(disk, x, offset, bytes, buf, ChunkCount(x.size, bytes));
    forall p :: offset <= p < offset + bytes ==> Agrees(disk, x, offset, r, p)
  }

  /** The transfer stays in the file's first block, or spills from it into a second that follows it on the disk. */
  predicate OneBlock(x: Extent, offset: nat, bytes: nat) {
    || bytes == 0
    || offset + bytes <= x.size
    || (offset < x.size && bytes <= x.size && |x.starts| > 1 && x.starts[1] == x.starts[0] + x.size)
  }

  lemma OneChunk(size: nat, bytes: nat)
    requires 0 < bytes <= size
    ensures ChunkCount(size, bytes) == 1 && ChunkSize(size, bytes, 0) == bytes
  {
    DivModUnique(bytes + size - 1, size, 1, bytes - 1);
  }

  lemma BelowSize(size: nat, p: nat)
    requires p < size
    ensures Quot(p, size) == 0 && p % size == p
  {
    DivModUnique(p, size, 0, p);
  }

  lemma SecondBlock(size: nat, p: nat)
    requires size <= p < 2 * size
    ensures Quot(p, size) == 1 && p % size == p - size
  {
    DivModUnique(p, size, 1, p - size);
  }

  /** Inside the first block, or across two adjacent ones, addition of the whole offset is right. */
  lemma NearByte(x: Extent, offset: nat, bytes: nat, p: nat)
    requires OneBlock(x, offset, bytes) && x.size > 0 && offset <= p < offset + bytes && HasByte(x, p)
    ensures ByteAt(x, p) == x.starts[0] + p && Quot(offset, x.size) == 0
  {
    BelowSize(x.size, offset);
    if p < x.size {
      BelowSize(x.size, p);
    } else {
      SecondBlock(x.size, p);
    }
  }

  /** What one turn leaves: its chunk at the start of the buffer. */
  lemma ReadTurn(disk: seq<byte>, x: Extent, offset: nat, bytes: nat, buf: seq<byte>, k: nat, p: nat)
    requires AllInReach(x, |disk|, offset, bytes) && 0 < k <= ChunkCount(x.size, bytes) && bytes <= |buf| && p < |buf|
    ensures InReach(x, |disk|, offset, bytes, k - 1)
    ensures ReadChunks(disk, x, offset, bytes, buf, k)[p] ==
      if p < ChunkSize(x.size, bytes, k - 1) then disk[x.starts[Quot(offset, x.size) + k - 1] + offset + p]
      else ReadChunks(disk, x, offset, bytes, buf, k - 1)[p]
  {
    hide ChunkCount, ChunkSize;
    assert InReach(x, |disk|, offset, bytes, k - 1);
  }

  lemma ReadOneBlock(disk: seq<byte>, x: Extent, offset: nat, bytes: nat, buf: seq<byte>)
    requires Served(x, |disk|, offset, bytes) && bytes <= |buf| && OneBlock(x, offset, bytes)
    ensures Delivered(disk, x, offset, bytes, buf)
  {
    hide ReadChunks, ChunkCount, ChunkSize, Gridded, Quot;
    if bytes > 0 {
      OneChunk(x.size, bytes);
      forall p | offset <= p < offset + bytes ensures Agrees(disk, x, offset, ReadChunks(disk, x, offset, bytes, buf, 1), p) {
        assert HasByte(x, p);
        NearByte(x, offset, bytes, p);
        ReadTurn(disk, x, offset, bytes, buf, 1, p - offset);
      }
    }
  }

  lemma SameBytes(disk: seq<byte>, x: Extent, offset: nat, r: seq<byte>, data: seq<byte>)
    requires |r| >= |data|
    requires forall p :: offset <= p < offset + |data| ==> Agrees(disk, x, offset, r, p)
    requires forall p :: offset <= p < offset + |data| ==> Agrees(disk, x, offset, data, p)
    ensures r[..|data|] == data
  {
    forall j | 0 <= j < |data| ensures r[j] == data[j] {
      assert Agrees(disk, x, offset, data, offset + j) && Agrees(disk, x, offset, r, offset + j);
    }
  }

  /** Different bytes of a file are different bytes of the disk. */
  lemma ByteAtInjective(x: Extent, length: nat, p: nat, q: nat)
    requires Gridded(x, length) && HasByte(x, p) && HasByte(x, q) && ByteAt(x, p) == ByteAt(x, q)
    ensures p == q
  {
    var i, j := Quot(p, x.size), Quot(q, x.size);
    assert p == x.size * i + p % x.size && q == x.size * j + q % x.size;
    if i != j {
      assert false;
    }
  }

  // -------- and when it is not --------

  /** No turn of the read loop reaches past the first block's worth of the buffer. */
  lemma {:induction false} ReadLeavesTail(disk: seq<byte>, x: Extent, offset: nat, bytes: nat, buf: seq<byte>, k: nat, j: nat)
    requires AllInReach(x, |disk|, offset, bytes) && k <= ChunkCount(x.size, bytes) && bytes <= |buf|
    requires x.size <= j < |buf|
    ensures ReadChunks(disk, x, offset, bytes, buf, k)[j] == buf[j]
    decreases k
  {
    if k > 0 {
      assert InReach(x, |disk|, offset, bytes, k - 1);
      ChunkFits(x.size, bytes, k - 1);
      ReadLeavesTail(disk, x, offset, bytes, buf, k - 1, j);
    }
  }

  /** A transfer of one chunk that is not `OneBlock` misses some byte of the file it should reach. */
  lemma MissedByte(x: Extent, length: nat, offset: nat, bytes: nat) returns (p: nat)
    requires Gridded(x, length) && !OneBlock(x, offset, bytes) && bytes <= x.size
    requires forall q :: offset <= q < offset + bytes ==> HasByte(x, q)
    ensures Quot(offset, x.size) < |x.starts| && offset <= p < offset + bytes && HasByte(x, p) && ByteAt(x, p) < length
    ensures var from := x.starts[Quot(offset, x.size)] + offset; ByteAt(x, p) < from || from + bytes <= ByteAt(x, p)
  {
    if offset >= x.size {
      p := offset;
      assert HasByte(x, offset);
      assert offset % x.size < x.size;
    } else {
      p := x.size;
      assert HasByte(x, x.size) && HasByte(x, offset);
      BelowSize(x.size, offset);
      SecondBlock(x.size, x.size);
      assert OnGrid(x.size, x.starts[0], x.starts[1]);
    }
  }

  /** `i` lies in one of the file's blocks. */
  ghost predicate Inside(x: Extent, i: nat) {
    exists j :: 0 <= j < |x.starts| && x.starts[j] <= i < x.starts[j] + x.size
  }

  /** The two disks differ, if at all, in the contents of the file. */
  ghost predicate SameButFile(disk: seq<byte>, disk': seq<byte>, x: Extent) {
    |disk'| == |disk| && forall i :: 0 <= i < |disk| && !Inside(x, i) ==> disk'[i] == disk[i]
  }

  lemma SameItself(disk: seq<byte>, x: Extent)
    ensures SameButFile(disk, disk, x)
  {
  }

  lemma ByteInside(x: Extent, p: nat)
    requires HasByte(x, p)
    ensures Inside(x, ByteAt(x, p))
  {
    var j := Quot(p, x.size);
    assert x.starts[j] <= ByteAt(x, p) < x.starts[j] + x.size;
  }

  function Other(v: byte): byte {
    if v == 0 then 1 else 0
  }

  lemma ReadWrongShort(disk: seq<byte>, x: Extent, offset: nat, bytes: nat) returns (disk': seq<byte>, buf: seq<byte>)
    requires Served(x, |disk|, offset, bytes) && !OneBlock(x, offset, bytes) && bytes <= x.size
    ensures SameButFile(disk, disk', x) && |buf| == bytes && !ReadRight(disk', x, offset, bytes, buf)
  {
    hide ReadChunks, ChunkCount, ChunkSize, OneBlock, Quot;
    var p := MissedByte(x, |disk|, offset, bytes);
    ByteInside(x, p);
    OneChunk(x.size, bytes);
    assert InReach(x, |disk|, offset, bytes, 0);
    var b, from := ByteAt(x, p), x.starts[Quot(offset, x.size)] + offset;
    disk', buf := disk[b := Other(disk[from + p - offset])], seq(bytes, _ => 0);
    var r := ReadChunks(disk', x, offset, bytes, buf, 1);
    ReadTurn(disk', x, offset, bytes, buf, 1, p - offset);
    assert !Agrees(disk', x, offset, r, p);
  }

  lemma ReadWrongLong(disk: seq<byte>, x: Extent, offset: nat, bytes: nat) returns (buf: seq<byte>)
    requires Served(x, |disk|, offset, bytes) && bytes > x.size
    ensures |buf| == bytes && !ReadRight(disk, x, offset, bytes, buf)
  {
    assert HasByte(x, offset + x.size);
    var b := ByteAt(x, offset + x.size);
    buf := seq(bytes, _ => Other(disk[b]));
    ReadLeavesTail(disk, x, offset, bytes, buf, ChunkCount(x.size, bytes), x.size);
    assert !Agrees(disk, x, offset, ReadChunks(disk, x, offset, bytes, buf, ChunkCount(x.size, bytes)), offset + x.size);
  }

  /** The one transfer that remains fits its bounce buffer. */
  predicate FirstContained(x: Extent, offset: nat, bytes: nat) {
    bytes > 0 && |x.starts| > 0 ==> FitsBounce(x.starts[0] + offset, bytes)
  }

  lemma OneContained(x: Extent, length: nat, offset: nat, bytes: nat)
    requires Served(x, length, offset, bytes) && OneBlock(x, offset, bytes)
    ensures FirstContained(x, offset, bytes) <==> forall k :: 0 <= k < ChunkCount(x.size, bytes) ==> Contained(x, offset, bytes, k)
  {
    if bytes > 0 {
      OneChunk(x.size, bytes);
      assert HasByte(x, offset);
      NearByte(x, offset, bytes, offset);
      assert Contained(x, offset, bytes, 0) <==> FirstContained(x, offset, bytes);
    } else {
      DivModUnique(x.size - 1, x.size, 0, x.size - 1);
    }
  }

  /**
    A read stays inside its bounce buffers and returns the file's bytes, whatever the file
    holds and whatever the buffer held, exactly when it is `OneBlock` and its one transfer
    fits the bounce buffer.
   */
  lemma ReadRightIff(disk: seq<byte>, x: Extent, offset: nat, bytes: nat)
    requires Served(x, |disk|, offset, bytes)
    ensures (forall disk', buf :: SameButFile(disk, disk', x) && |buf| == bytes ==> ReadRight(disk', x, offset, bytes, buf)) <==>
      OneBlock(x, offset, bytes) && FirstContained(x, offset, bytes)
  {
    hide Contained, FirstContained, Served, ReadChunks, OneBlock, Inside;
    if OneBlock(x, offset, bytes) {
      OneContained(x, |disk|, offset, bytes);
      forall disk', buf | SameButFile(disk, disk', x) && |buf| == bytes ensures Delivered(disk', x, offset, bytes, buf) {
        ReadOneBlock(disk', x, offset, bytes, buf);
      }
      SameItself(disk, x);
      assert |seq<byte>(bytes, _ => 0)| == bytes;
    } else if bytes > x.size {
      var buf := ReadWrongLong(disk, x, offset, bytes);
      SameItself(disk, x);
    } else {
      var _, _ := ReadWrongShort(disk, x, offset, bytes);
    }
  }

  lemma TwoChunks(n: nat)
    requires n > 0
    ensures ChunkCount(n, 2 * n) == 2 && ChunkSize(n, 2 * n, 0) == n && ChunkSize(n, 2 * n, 1) == n
  {
    DivModUnique(2 * n + n - 1, n, 2, n - 1);
  }

  lemma SpliceTwice(buf: seq<byte>, a: seq<byte>, b: seq<byte>)
    requires |a| == |b| <= |buf|
    ensures Splice(Splice(buf, 0, a), 0, b) == b + buf[|b|..]
  {
  }

  lemma FullChunk(size: nat, bytes: nat, k: nat)
    requires size > 0 && k + 1 < ChunkCount(size, bytes)
    ensures ChunkSize(size, bytes, k) == size
  {
    VisitedIff(size, bytes, k + 1);
  }

  /**
    Every byte a read leaves, however many blocks it visits: the last chunk at the start of
    the buffer, behind it the rest of the last but one, and the buffer as it was from the
    block size on.
   */
  lemma ReadLeaves(disk: seq<byte>, x: Extent, offset: nat, bytes: nat, buf: seq<byte>, p: nat)
    requires AllInReach(x, |disk|, offset, bytes) && bytes <= |buf| && p < |buf|
    ensures var m, first := ChunkCount(x.size, bytes), Quot(offset, x.size);
      var last := if m == 0 then 0 else ChunkSize(x.size, bytes, m - 1);
      && (p < last ==> InReach(x, |disk|, offset, bytes, m - 1))
      && (m > 1 && last <= p < x.size ==>
            && InReach(x, |disk|, offset, bytes, m - 2)
            && x.starts[first + m - 2] + offset + p < |disk|)
      && ReadChunks(disk, x, offset, bytes, buf, m)[p] ==
           if p < last then disk[x.starts[first + m - 1] + offset + p]
           else if m > 1 && p < x.size then disk[x.starts[first + m - 2] + offset + p]
           else buf[p]
  {
    hide ChunkCount, ChunkSize, ReadChunks;
    var m := ChunkCount(x.size, bytes);
    if m == 0 {
      NoTurns(disk, x, offset, bytes, buf);
    } else {
      ReadTurn(disk, x, offset, bytes, buf, m, p);
      ChunkFits(x.size, bytes, m - 1);
      if p >= x.size {
        ReadLeavesTail(disk, x, offset, bytes, buf, m - 1, p);
      } else if m > 1 {
        FullChunk(x.size, bytes, m - 2);
        ReadTurn(disk, x, offset, bytes, buf, m - 1, p);
      } else {
        NoTurns(disk, x, offset, bytes, buf);
      }
    }
  }

  lemma NoTurns(disk: seq<byte>, x: Extent, offset: nat, bytes: nat, buf: seq<byte>)
    requires AllInReach(x, |disk|, offset, bytes) && bytes <= |buf|
    ensures ReadChunks(disk, x, offset, bytes, buf, 0) == buf
  {
  }

  /** Of two blocks read in one call the second is left at the start of the buffer, and what lay behind it stays. */
  lemma TwoBlockRead(disk: seq<byte>, x: Extent, buf: seq<byte>)
    requires Gridded(x, |disk|) && |x.starts| >= 2 && |buf| == 2 * x.size
    ensures AllInReach(x, |disk|, 0, 2 * x.size) && ChunkCount(x.size, 2 * x.size) == 2
    ensures ReadChunks(disk, x, 0, 2 * x.size, buf, 2) == disk[x.starts[1]..x.starts[1] + x.size] + buf[x.size..]
  {
    hide Splice, ChunkCount, ChunkSize;
    var n, bytes := x.size, 2 * x.size;
    TwoChunks(n);
    BelowSize(n, 0);
    assert InReach(x, |disk|, 0, bytes, 0) && InReach(x, |disk|, 0, bytes, 1);
    var first := ReadChunks(disk, x, 0, bytes, buf, 1);
    assert first == Splice(buf, 0, disk[x.starts[0]..x.starts[0] + n]);
    assert ReadChunks(disk, x, 0, bytes, buf, 2) == Splice(first, 0, disk[x.starts[1]..x.starts[1] + n]);
    SpliceTwice(buf, disk[x.starts[0]..x.starts[0] + n], disk[x.starts[1]..x.starts[1] + n]);
  }

  /** Blocks the transfer does not visit are of no account. */
  lemma {:induction false} ReadVisited(disk: seq<byte>, x: Extent, y: Extent, offset: nat, bytes: nat, buf: seq<byte>, k: nat)
    requires AllInReach(x, |disk|, offset, bytes) && AllInReach(y, |disk|, offset, bytes) && x.size == y.size
    requires k <= ChunkCount(x.size, bytes) && bytes <= |buf|
    requires forall j :: 0 <= j < |x.starts| && j < |y.starts| ==> x.starts[j] == y.starts[j]
    ensures ReadChunks(disk, x, offset, bytes, buf, k) == ReadChunks(disk, y, offset, bytes, buf, k)
    decreases k
  {
    hide Splice, ChunkSize, ChunkCount, Quot;
    if k > 0 {
      ReadVisited(disk, x, y, offset, bytes, buf, k - 1);
      assert InReach(x, |disk|, offset, bytes, k - 1) && InReach(y, |disk|, offset, bytes, k - 1);
    }
  }
}
