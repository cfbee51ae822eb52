/** Byte-granular disk access over sectors, as in src/drivers/ahci.rs. */
module Disks {
  import opened Bits

  /** `s` with `data` laid over it at `at`. */
  function Splice(s: seq<byte>, at: nat, data: seq<byte>): (r: seq<byte>)
    requires at + |data| <= |s|
    ensures |r| == |s|
    ensures forall j :: 0 <= j < |s| ==> r[j] == if at <= j < at + |data| then data[j - at] else s[j]
  {
    s[..at] + data + s[at + |data|..]
  }
}

module Ahci {
  import opened Arith
  import opened Bits
  import opened Options
  import opened PhysAddr
  import opened Disks

  const SECTOR: nat := 512
  /** One descriptor moves at most 4 MiB: a 22-bit, zero-based byte count (AHCI 1.3.1, section 4.2.3.3). */
  const MAX_SECTORS: nat := 8192
  const LBA_LIMIT: nat := 0x1_0000_0000_0000

  /** The command registers of a host-to-device FIS. */
  class FisRegH2D {
    var lba0: byte
    var lba1: byte
    var lba2: byte
    var lba3: byte
    var lba4: byte
    var lba5: byte
    var device: byte
    var countl: byte
    var counth: byte

    constructor () {}

    /** The address and the sector count a device decodes. */
    function Lba(): nat
      reads this
    {
      lba0 + 0x100 * lba1 + 0x1_0000 * lba2 + 0x100_0000 * lba3 + 0x1_0000_0000 * lba4 + 0x100_0000_0000 * lba5
    }

    function Count(): nat
      reads this
    {
      countl + 0x100 * counth
    }

    method SetLba(lba: u64)
      modifies this
      ensures Lba() == lba % LBA_LIMIT && device == 0x40 && Count() == old(Count())
    {
      lba0 := lba % 0x100;
      lba1 := lba / 0x100 % 0x100;
      lba2 := lba / 0x1_0000 % 0x100;
      lba3 := lba / 0x100_0000 % 0x100;
      lba4 := lba / 0x1_0000_0000 % 0x100;
      lba5 := lba / 0x100_0000_0000 % 0x100;
      device := 0x40;
      SixBytes(lba);
    }

    method SetCount(count: u16)
      modifies this
      ensures Count() == count && Lba() == old(Lba()) && device == old(device)
    {
      countl := count % 0x100;
      counth := count / 0x100 % 0x100;
    }
  }

  lemma SixBytes(x: nat)
    ensures x % LBA_LIMIT == x % 0x100 + 0x100 * (x / 0x100 % 0x100) + 0x1_0000 * (x / 0x1_0000 % 0x100)
      + 0x100_0000 * (x / 0x100_0000 % 0x100) + 0x1_0000_0000 * (x / 0x1_0000_0000 % 0x100)
      + 0x100_0000_0000 * (x / 0x100_0000_0000 % 0x100)
  {
    var y := x / 0x100_0000;
    assert x % LBA_LIMIT == x % 0x100_0000 + 0x100_0000 * (y % 0x100_0000);
    ThreeBytes(x);
    ThreeBytes(y);
    assert y / 0x100 == x / 0x1_0000_0000 && y / 0x1_0000 == x / 0x100_0000_0000;
  }

  lemma ThreeBytes(x: nat)
    ensures x % 0x100_0000 == x % 0x100 + 0x100 * (x / 0x100 % 0x100) + 0x1_0000 * (x / 0x1_0000 % 0x100)
  {
    var y := x / 0x100;
    var z := y / 0x100;
    DivModUnique(x, 0x1_0000, z, x % 0x100 + 0x100 * (y % 0x100));
    DivModUnique(x, 0x100_0000, z / 0x100, x % 0x100 + 0x100 * (y % 0x100) + 0x1_0000 * (z % 0x100));
  }

  /** The physical region descriptor of a command. */
  class Prdt {
    var dataLower: u32
    var dataUpper: u32
    var bcI: u32

    constructor () {}

    function Address(): nat
      reads this
    {
      dataLower + 0x1_0000_0000 * dataUpper
    }

    /** The length a controller decodes from the 22-bit field. */
    function Length(): nat
      reads this
    {
      bcI % 0x40_0000 + 1
    }

    /** The decoded length is the requested one exactly up to 8192 sectors. */
    method SetBuffer(address: u64, sectorCnt: u16)
      requires sectorCnt > 0
      modifies this
      ensures Address() == address
      ensures Length() == SECTOR * sectorCnt <==> sectorCnt <= MAX_SECTORS
      ensures Length() == (512 * sectorCnt - 1) % 0x40_0000 + 1 && bcI >= 0x8000_0000
    {
      dataLower := address % 0x1_0000_0000;
      dataUpper := address / 0x1_0000_0000 % 0x1_0000_0000;
      InterruptBit(sectorCnt * SECTOR - 1);
      bcI := Or(sectorCnt * SECTOR - 1, 0x8000_0000);
    }
  }

  lemma InterruptBit(x: nat)
    requires x < 0x8000_0000
    ensures Or(x, 0x8000_0000) == x + 0x8000_0000
  {
    assert Pow2(7) == 0x80;
    Pow2Plus8(7); Pow2Plus8(15); Pow2Plus8(23);
    OrDisjoint(x, 0x8000_0000, 31);
  }

  function Sectors(offset: nat, bytes: nat): nat {
    DivCeil(bytes + offset % SECTOR, SECTOR)
  }

  function BounceSize(bytes: nat): nat {
    DivCeil(bytes, PAGE_SIZE) * PAGE_SIZE
  }

  /** The sectors of a transfer stay inside the bounce buffer, which is sized from `bytes` alone. */
  predicate FitsBounce(offset: nat, bytes: nat) {
    offset % SECTOR + bytes <= RoundUp(bytes, PAGE_SIZE)
  }

  lemma FitsBounceIff(offset: nat, bytes: nat)
    ensures FitsBounce(offset, bytes) <==> Sectors(offset, bytes) * SECTOR <= BounceSize(bytes)
  {
    DivCeilLeast(bytes + offset % SECTOR, SECTOR);
    var pages := DivCeil(bytes, PAGE_SIZE);
    assert BounceSize(bytes) == (8 * pages) * SECTOR;
  }

  /** A whole page read one byte into a sector runs past its one-page bounce buffer. */
  lemma BounceOverrun()
    ensures !FitsBounce(1, 4096)
  {
  }

  /** What the registers and the bounce buffer can carry. */
  predicate Transferable(offset: nat, bytes: nat) {
    && bytes > 0 && FitsBounce(offset, bytes) && Sectors(offset, bytes) <= MAX_SECTORS
    && offset / SECTOR < LBA_LIMIT
  }

  /** Its sectors exist. */
  predicate WithinDisk(diskSize: nat, offset: nat, bytes: nat) {
    (offset / SECTOR + Sectors(offset, bytes)) * SECTOR <= diskSize
  }

  predicate Reachable(diskSize: nat, offset: nat, bytes: nat) {
    Transferable(offset, bytes) && WithinDisk(diskSize, offset, bytes)
  }

  /** The sectors of a transfer are the least number that hold it. */
  lemma SpanCovers(offset: nat, bytes: nat)
    requires bytes > 0
    ensures Sectors(offset, bytes) > 0
    ensures offset % SECTOR + bytes <= Sectors(offset, bytes) * SECTOR
    ensures (Sectors(offset, bytes) - 1) * 512 < offset % 512 + bytes
    ensures offset == offset / SECTOR * SECTOR + offset % SECTOR
  {
    DivCeilLeast(bytes + offset % SECTOR, SECTOR);
  }

  class AhciDevice {
    const disk: array<byte>
    const fis: FisRegH2D
    const prdt: Prdt
    /** Whether the port raises its task-file error for a read command, and for a write command. */
    var readFault: bool
    var writeFault: bool

    constructor (disk: array<byte>)
      ensures this.disk == disk && fresh(fis) && fresh(prdt) && !readFault && !writeFault
    {
      this.disk := disk;
      fis := new FisRegH2D();
      prdt := new Prdt();
      readFault, writeFault := false, false;
    }

    predicate Fails(write: bool)
      reads this
    {
      if write then writeFault else readFault
    }

    /** What the device does with a decoded command: sectors to memory, or memory to sectors. */
    method Transfer(first: nat, length: nat, buffer: array<byte>, write: bool)
      requires buffer != disk && length <= buffer.Length && first + length <= disk.Length
      modifies if write then disk else buffer
      ensures write ==> disk[..] == Splice(old(disk[..]), first, buffer[..length])
      ensures !write ==> buffer[..] == Splice(old(buffer[..]), 0, disk[first..first + length])
    {
      if write {
        forall k | 0 <= k < length {
          disk[first + k] := buffer[k];
        }
      } else {
        forall k | 0 <= k < length {
          buffer[k] := disk[first + k];
        }
      }
    }

    /** Fill in the registers, and read them back as the device does. */
    method Program(lba: u64, sectors: u16, address: u64) returns (first: nat, length: nat)
      requires 0 < sectors <= MAX_SECTORS && lba < LBA_LIMIT
      modifies fis, prdt
      ensures first == lba * SECTOR && length == sectors * SECTOR && prdt.Length() == length
    {
      prdt.SetBuffer(address, sectors);
      fis.SetLba(lba);
      assert fis.Lba() == lba;
      fis.SetCount(sectors);
      var start, count := fis.Lba(), fis.Count();
      assert start == lba && count == sectors;
      first, length := start * SECTOR, count * SECTOR;
    }

    /** A completed command moves every sector; one that fails, or names sectors past the last, moves nothing. `None` is `Err`. */
    method SendCommand(lba: u64, sectors: u16, buffer: array<byte>, address: u64, write: bool) returns (r: Option<nat>)
      requires buffer != disk
      requires 0 < sectors <= MAX_SECTORS && lba < LBA_LIMIT && sectors * SECTOR <= buffer.Length
      modifies fis, prdt, if write then disk else buffer
      ensures r == if Fails(write) || (lba + sectors) * SECTOR > disk.Length then None else Some(sectors * SECTOR)
      ensures r.None? ==> buffer[..] == old(buffer[..]) && disk[..] == old(disk[..])
      ensures r.Some? && write ==> disk[..] == Splice(old(disk[..]), lba * SECTOR, buffer[..sectors * SECTOR])
      ensures r.Some? && !write ==>
        buffer[..] == Splice(old(buffer[..]), 0, disk[lba * SECTOR..(lba + sectors) * SECTOR])
    {
      var first, length := Program(lba, sectors, address);
      if Fails(write) || first + length > disk.Length {
        return None;
      }
      Transfer(first, length, buffer, write);
      return Some(length);
    }

    /** A span of sectors into the bounce buffer `tmp`, and the wanted part of it into `buffer`. */
    method Fetch(lba: u64, sectors: u16, o: nat, tmp: array<byte>, bytes: nat, buffer: array<byte>) returns (r: Option<nat>)
      requires tmp != disk && buffer != disk && tmp != buffer && bytes <= buffer.Length
      requires 0 < sectors <= MAX_SECTORS && lba < LBA_LIMIT && o + bytes <= sectors * SECTOR <= tmp.Length
      modifies fis, prdt, tmp, buffer
      ensures r == if readFault || (lba + sectors) * SECTOR > disk.Length then None else Some(sectors * SECTOR)
      ensures r.None? ==> buffer[..] == old(buffer[..])
      ensures r.Some? ==>
        var at := lba * SECTOR + o; buffer[..] == Splice(old(buffer[..]), 0, disk[at..at + bytes])
    {
      hide Splice;
      ghost var before, first, length := tmp[..], lba * SECTOR, sectors * SECTOR;
      r := SendCommand(lba, sectors, tmp, 0, false);
      if r.Some? {
        SpanSlice(before, disk[..], first, length, o, bytes);
        Copy(buffer, 0, tmp, o, bytes);
      }
    }

    /** A span of sectors into `tmp`, `buffer` laid over part of it, and the span back to the disk. */
    method Patch(lba: u64, sectors: u16, o: nat, tmp: array<byte>, bytes: nat, buffer: array<byte>) returns (r: Option<nat>)
      requires tmp != disk && buffer != disk && tmp != buffer && bytes <= buffer.Length
      requires 0 < sectors <= MAX_SECTORS && lba < LBA_LIMIT && o + bytes <= sectors * SECTOR <= tmp.Length
      modifies fis, prdt, tmp, disk
      ensures r == if readFault || writeFault || (lba + sectors) * SECTOR > disk.Length then None else Some(sectors * SECTOR)
      ensures r.None? ==> disk[..] == old(disk[..])
      ensures r.Some? ==> disk[..] == Splice(old(disk[..]), lba * SECTOR + o, buffer[..bytes])
    {
      hide Splice;
      ghost var before, d, data, first, length := tmp[..], disk[..], buffer[..bytes], lba * SECTOR, sectors * SECTOR;
      r := SendCommand(lba, sectors, tmp, 0, false);
      if r.Some? {
        ghost var read := tmp[..];
        assert read == Splice(before, 0, d[first..first + length]);
        Copy(tmp, o, buffer, 0, bytes);
        assert tmp[..length] == Splice(read, o, data)[..length];
        r := SendCommand(lba, sectors, tmp, 0, true);
        ReadModifyWrite(before, d, first, length, o, data);
      }
    }

    method Read(offset: u64, bytes: nat, buffer: array<byte>) returns (r: Option<nat>)
      requires buffer != disk && bytes <= buffer.Length && Transferable(offset, bytes)
      modifies fis, prdt, buffer
      ensures r == if readFault || !WithinDisk(disk.Length, offset, bytes) then None else Some(Sectors(offset, bytes) * SECTOR)
      ensures WithinDisk(disk.Length, offset, bytes) ==> offset + bytes <= disk.Length
      ensures buffer[..] == if r.None? then old(buffer[..]) else Splice(old(buffer[..]), 0, disk[offset..offset + bytes])
    {
      var lba, sectors, o := Span(offset, bytes);
      hide Splice, Sectors, BounceSize;
      var tmp := new byte[BounceSize(bytes)](_ => 0);
      r := Fetch(lba, sectors, o, tmp, bytes, buffer);
    }

    /** The sectors around the span are read first, so either command can fail; the disk then is as it was. */
    method Write(offset: u64, bytes: nat, buffer: array<byte>) returns (r: Option<nat>)
      requires buffer != disk && bytes <= buffer.Length && Transferable(offset, bytes)
      modifies fis, prdt, disk
      ensures r == if readFault || writeFault || !WithinDisk(disk.Length, offset, bytes) then None else Some(Sectors(offset, bytes) * SECTOR)
      ensures WithinDisk(disk.Length, offset, bytes) ==> offset + bytes <= disk.Length
      ensures disk[..] == if r.None? then old(disk[..]) else Splice(old(disk[..]), offset, buffer[..bytes])
    {
      var lba, sectors, o := Span(offset, bytes);
      hide Splice, Sectors, BounceSize;
      var tmp := new byte[BounceSize(bytes)](_ => 0);
      r := Patch(lba, sectors, o, tmp, bytes, buffer);
    }

    /** The first sector, the 16-bit sector count and the offset into the first sector. */
    method Span(offset: u64, bytes: nat) returns (lba: u64, sectors: u16, o: nat)
      requires Transferable(offset, bytes)
      ensures 0 < sectors == Sectors(offset, bytes) <= MAX_SECTORS && lba == offset / SECTOR < LBA_LIMIT
      ensures offset == lba * SECTOR + o && o + bytes <= sectors * SECTOR <= BounceSize(bytes)
    {
      FitsBounceIff(offset, bytes);
      SpanCovers(offset, bytes);
      lba, sectors, o := offset / SECTOR, Sectors(offset, bytes) % 0x1_0000, offset % SECTOR;
    }
  }

  /** `copy_from` between distinct buffers. */
  method Copy(dst: array<byte>, at: nat, src: array<byte>, from: nat, n: nat)
    requires dst != src && at + n <= dst.Length && from + n <= src.Length
    modifies dst
    ensures dst[..] == Splice(old(dst[..]), at, src[from..from + n])
  {
    forall k | 0 <= k < n {
      dst[at + k] := src[from + k];
    }
  }

  /** Part of a span read into the bounce buffer is that part of the disk. */
  lemma SpanSlice(tmp: seq<byte>, disk: seq<byte>, first: nat, length: nat, o: nat, n: nat)
    requires first + length <= |disk| && length <= |tmp| && o + n <= length
    ensures Splice(tmp, 0, disk[first..first + length])[o..o + n] == disk[first + o..first + o + n]
  {
    var read := Splice(tmp, 0, disk[first..first + length]);
    forall k | 0 <= k < length ensures read[k] == disk[first + k] {
      assert read[k] == disk[first..first + length][k];
    }
  }

  /** Reading a span, patching it and writing it back is a splice of the disk itself. */
  lemma ReadModifyWrite(tmp: seq<byte>, disk: seq<byte>, first: nat, length: nat, o: nat, data: seq<byte>)
    requires first + length <= |disk| && length <= |tmp| && o + |data| <= length
    ensures Splice(disk, first, Splice(Splice(tmp, 0, disk[first..first + length]), o, data)[..length]) == Splice(disk, first + o, data)
  {
    var read := Splice(tmp, 0, disk[first..first + length]);
    var back := Splice(read, o, data)[..length];
    forall k | 0 <= k < length ensures read[k] == disk[first + k] {
      assert read[k] == disk[first..first + length][k];
    }
    var there, here := Splice(disk, first, back), Splice(disk, first + o, data);
    forall k | 0 <= k < |disk| ensures there[k] == here[k] {
      if first <= k < first + length {
        assert there[k] == back[k - first];
      }
    }
  }
}
