/** The byte-packed bit set of src/utils/bitmap.rs. */
module Bitmaps {
  import opened Bits

  /** The set as a sequence of truth values, bit `i` being digit `i % 8` of byte `i / 8`. */
  function BitsOf(bytes: seq<byte>): (r: seq<bool>)
    ensures |r| == 8 * |bytes|
  {
    seq(8 * |bytes|, i requires 0 <= i < 8 * |bytes| => Test(bytes[i / 8], i % 8))
  }

  /** Bit `i` is the one that masking byte `i / 8` with `1 << i % 8` tests. */
  lemma BitIs(bytes: seq<byte>, i: nat)
    requires i < 8 * |bytes|
    ensures BitsOf(bytes)[i] <==> And(bytes[i / 8], Pow2(i % 8)) != 0
  {
    AndPow2(bytes[i / 8], i % 8);
  }

  lemma ByteWidth(x: byte, y: byte)
    ensures And(x, y) < 0x100 && Or(x, y) < 0x100 && Xor(x, y) < 0x100
    ensures And(x, y) >= 0 && Or(x, y) >= 0 && Xor(x, y) >= 0
  {
    assert Pow2(8) == 0x100;
    WithinWidth(x, y, 8);
  }

  function OneBit(k: nat): (r: byte)
    requires k < 8
    ensures r > 0
  {
    assert Pow2(0) == 1 && Pow2(1) == 2 && Pow2(2) == 4 && Pow2(3) == 8;
    assert Pow2(4) == 16 && Pow2(5) == 32 && Pow2(6) == 64 && Pow2(7) == 128;
    Pow2(k)
  }

  function NotBit(k: nat): (r: byte)
    requires k < 8
    ensures r == 0xff - Pow2(k)
  {
    0xff - OneBit(k)
  }

  /** What `|=`, `&= !` and `^=` with a one-bit byte do to each digit. */
  lemma ByteDigits(x: byte, k: nat)
    requires k < 8
    ensures forall j :: 0 <= j < 8 ==> Test(Or(x, OneBit(k)), j) == (j == k || Test(x, j))
    ensures forall j :: 0 <= j < 8 ==> Test(And(x, NotBit(k)), j) == (j != k && Test(x, j))
    ensures forall j :: 0 <= j < 8 ==> Test(Xor(x, OneBit(k)), j) == ((j == k) != Test(x, j))
  {
    var m, n := OneBit(k), NotBit(k);
    forall j | 0 <= j < 8
      ensures Test(Or(x, m), j) == (j == k || Test(x, j))
      ensures Test(And(x, n), j) == (j != k && Test(x, j))
      ensures Test(Xor(x, m), j) == ((j == k) != Test(x, j))
    {
      TestOr(x, m, j);
      TestXor(x, m, j);
      TestAnd(x, n, j);
      TestPow2(k, j);
      assert Pow2(8) == 0x100;
      TestNot(m, 8, j);
    }
  }

  function OrByte(x: byte, k: nat): (r: byte)
    requires k < 8
    ensures forall j :: 0 <= j < 8 ==> Test(r, j) == (j == k || Test(x, j))
  {
    ByteWidth(x, OneBit(k));
    ByteDigits(x, k);
    Or(x, OneBit(k))
  }

  function AndNotByte(x: byte, k: nat): (r: byte)
    requires k < 8
    ensures forall j :: 0 <= j < 8 ==> Test(r, j) == (j != k && Test(x, j))
  {
    ByteWidth(x, NotBit(k));
    ByteDigits(x, k);
    And(x, NotBit(k))
  }

  function XorByte(x: byte, k: nat): (r: byte)
    requires k < 8
    ensures forall j :: 0 <= j < 8 ==> Test(r, j) == ((j == k) != Test(x, j))
  {
    ByteWidth(x, OneBit(k));
    ByteDigits(x, k);
    Xor(x, OneBit(k))
  }

  /** A byte write that changes one digit changes one bit of the set. */
  lemma OneDigitOneBit(bytes: seq<byte>, bit: nat, b: byte)
    requires bit < 8 * |bytes|
    requires forall j :: 0 <= j < 8 && j != bit % 8 ==> Test(b, j) == Test(bytes[bit / 8], j)
    ensures BitsOf(bytes[bit / 8 := b]) == BitsOf(bytes)[bit := Test(b, bit % 8)]
  {
    var bytes' := bytes[bit / 8 := b];
    forall i | 0 <= i < 8 * |bytes|
      ensures BitsOf(bytes')[i] == BitsOf(bytes)[bit := Test(b, bit % 8)][i]
    {
      assert i == 8 * (i / 8) + i % 8 && bit == 8 * (bit / 8) + bit % 8;
    }
  }

  function SetBit(bytes: seq<byte>, bit: nat): (r: seq<byte>)
    requires bit < 8 * |bytes|
    ensures |r| == |bytes| && BitsOf(r) == BitsOf(bytes)[bit := true]
    ensures forall x :: 0 <= x < |bytes| && x != bit / 8 ==> r[x] == bytes[x]
  {
    OneDigitOneBit(bytes, bit, OrByte(bytes[bit / 8], bit % 8));
    bytes[bit / 8 := OrByte(bytes[bit / 8], bit % 8)]
  }

  class Bitmap {
    const data: array<byte>

    ghost function Contents(): (r: seq<bool>)
      reads data
      ensures |r| == 8 * data.Length
    {
      BitsOf(data[..])
    }

    constructor FromRawPtr(raw: array<byte>)
      ensures data == raw
    {
      data := raw;
    }

    /** `Bitmap::new`: `size` bytes obtained zeroed from the page allocator. */
    constructor (size: nat)
      ensures fresh(data) && data.Length == size
      ensures Contents() == seq(8 * size, _ => false)
    {
      var raw := new byte[size](_ => 0);
      data := raw;
      new;
      forall i | 0 <= i < 8 * size ensures !Contents()[i] {
        TestZero(i % 8);
      }
    }

    function Size(): (r: nat) {
      data.Length
    }

    predicate IsSet(bit: nat): (r: bool)
      requires bit < 8 * data.Length
      reads data
      ensures r == Contents()[bit]
    {
      AndPow2(data[bit / 8], bit % 8);
      And(data[bit / 8], OneBit(bit % 8)) != 0
    }

    method Set(bit: nat)
      requires bit < 8 * data.Length
      modifies data
      ensures data[..] == SetBit(old(data[..]), bit)
      ensures Contents() == old(Contents())[bit := true]
    {
      ghost var after := SetBit(data[..], bit);
      data[bit / 8] := OrByte(data[bit / 8], bit % 8);
      assert data[..] == after;
    }

    method Clear(bit: nat)
      requires bit < 8 * data.Length
      modifies data
      ensures Contents() == old(Contents())[bit := false]
    {
      OneDigitOneBit(data[..], bit, AndNotByte(data[bit / 8], bit % 8));
      ghost var after := data[..][bit / 8 := AndNotByte(data[bit / 8], bit % 8)];
      data[bit / 8] := AndNotByte(data[bit / 8], bit % 8);
      assert data[..] == after;
    }

    method Toggle(bit: nat)
      requires bit < 8 * data.Length
      modifies data
      ensures Contents() == old(Contents())[bit := !old(Contents())[bit]]
    {
      OneDigitOneBit(data[..], bit, XorByte(data[bit / 8], bit % 8));
      ghost var after := data[..][bit / 8 := XorByte(data[bit / 8], bit % 8)];
      data[bit / 8] := XorByte(data[bit / 8], bit % 8);
      assert data[..] == after;
    }
  }
}
