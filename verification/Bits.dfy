/**
  Unsigned machine words as natural numbers, with the bitwise operators defined on
  binary digits.  `Test(x, k)` reads digit `k`; every operator is characterised by
  what it does to each digit.
 */
module Bits {
  import opened Arith

  type byte = x: int | 0 <= x < 0x100
  type u16 = x: int | 0 <= x < 0x1_0000
  type u32 = x: int | 0 <= x < 0x1_0000_0000
  type u64 = x: int | 0 <= x < 0x1_0000_0000_0000_0000

  function Pow2(k: nat): (r: nat)
    ensures r > 0
  {
    if k == 0 then 1 else 2 * Pow2(k - 1)
  }

  predicate Test(x: nat, k: nat) {
    if k == 0 then x % 2 == 1 else Test(x / 2, k - 1)
  }

  function Digit(b: bool): nat {
    if b then 1 else 0
  }

  function And(x: nat, y: nat): nat {
    if x == 0 || y == 0 then 0
    else 2 * And(x / 2, y / 2) + Digit(x % 2 == 1 && y % 2 == 1)
  }

  function Or(x: nat, y: nat): nat {
    if x == 0 then y else if y == 0 then x
    else 2 * Or(x / 2, y / 2) + Digit(x % 2 == 1 || y % 2 == 1)
  }

  function Xor(x: nat, y: nat): nat {
    if x == 0 then y else if y == 0 then x
    else 2 * Xor(x / 2, y / 2) + Digit((x % 2 == 1) != (y % 2 == 1))
  }

  // -------- digits of the operators --------

  lemma {:induction false} TestZero(k: nat)
    ensures !Test(0, k)
  {
    if k > 0 { TestZero(k - 1); }
  }

  /** A number made of a half and a digit comes apart into them. */
  lemma TestJoined(h: nat, d: bool, k: nat)
    ensures (2 * h + Digit(d)) / 2 == h && Test(2 * h + Digit(d), k) == if k == 0 then d else Test(h, k - 1)
  {
    DivModUnique(2 * h + Digit(d), 2, h, Digit(d));
  }

  lemma {:induction false} TestAnd(x: nat, y: nat, k: nat)
    ensures Test(And(x, y), k) == (Test(x, k) && Test(y, k))
  {
    TestZero(k);
    if x != 0 && y != 0 {
      TestJoined(And(x / 2, y / 2), x % 2 == 1 && y % 2 == 1, k);
      if k > 0 {
        TestAnd(x / 2, y / 2, k - 1);
      }
    }
  }

  lemma {:induction false} TestOr(x: nat, y: nat, k: nat)
    ensures Test(Or(x, y), k) == (Test(x, k) || Test(y, k))
  {
    TestZero(k);
    if x != 0 && y != 0 {
      TestJoined(Or(x / 2, y / 2), x % 2 == 1 || y % 2 == 1, k);
      if k > 0 {
        TestOr(x / 2, y / 2, k - 1);
      }
    }
  }

  lemma {:induction false} TestXor(x: nat, y: nat, k: nat)
    ensures Test(Xor(x, y), k) == (Test(x, k) != Test(y, k))
  {
    TestZero(k);
    if x != 0 && y != 0 {
      TestJoined(Xor(x / 2, y / 2), (x % 2 == 1) != (y % 2 == 1), k);
      if k > 0 {
        TestXor(x / 2, y / 2, k - 1);
      }
    }
  }

  lemma {:induction false} TestPow2(j: nat, k: nat)
    ensures Test(Pow2(j), k) == (j == k)
  {
    if j == 0 {
      if k > 0 { TestZero(k - 1); }
    } else if k > 0 {
      TestPow2(j - 1, k - 1);
    }
  }

  /** Complement within `w` digits. */
  lemma {:induction false} TestNot(x: nat, w: nat, k: nat)
    requires k < w && x < Pow2(w)
    ensures Test(Pow2(w) - 1 - x, k) == !Test(x, k)
  {
    if k > 0 {
      TestNot(x / 2, w - 1, k - 1);
      assert (Pow2(w) - 1 - x) / 2 == Pow2(w - 1) - 1 - x / 2;
    }
  }

  /** Testing a digit the way the kernel does: mask with a single-bit word. */
  lemma {:induction false} AndPow2(x: nat, k: nat)
    ensures And(x, Pow2(k)) == (if Test(x, k) then Pow2(k) else 0)
  {
    if k == 0 {
      if x != 0 { assert And(x, 1) == 2 * And(x / 2, 0) + Digit(x % 2 == 1); }
    } else {
      AndPow2(x / 2, k - 1);
      TestZero(k);
    }
  }

  lemma {:induction false} WithinWidth(x: nat, y: nat, w: nat)
    requires x < Pow2(w) && y < Pow2(w)
    ensures And(x, y) < Pow2(w) && Or(x, y) < Pow2(w) && Xor(x, y) < Pow2(w)
  {
    if x != 0 && y != 0 {
      WithinWidth(x / 2, y / 2, w - 1);
    }
  }

  // -------- masks and disjoint unions --------

  lemma ModPow2(x: nat, k: nat)
    requires k > 0
    ensures x % Pow2(k) == 2 * (x / 2 % Pow2(k - 1)) + x % 2
  {
    var p := Pow2(k - 1);
    var q, r := x / 2 / p, x / 2 % p;
    assert x == (2 * p) * q + (2 * r + x % 2);
    DivModUnique(x, 2 * p, q, 2 * r + x % 2);
  }

  lemma {:induction false} AndLowMask(x: nat, k: nat)
    ensures And(x, Pow2(k) - 1) == x % Pow2(k)
  {
    if k == 0 {
      assert Pow2(0) == 1;
    } else if x != 0 {
      AndLowMask(x / 2, k - 1);
      AndLowStep(x, k);
    }
  }

  lemma AndLowStep(x: nat, k: nat)
    requires k > 0 && x != 0 && And(x / 2, Pow2(k - 1) - 1) == x / 2 % Pow2(k - 1)
    ensures And(x, Pow2(k) - 1) == x % Pow2(k)
  {
    LowMask(k);
    ModPow2(x, k);
    hide Pow2;
  }

  lemma LowMask(k: nat)
    requires k > 0
    ensures Pow2(k) > 1 && (Pow2(k) - 1) / 2 == Pow2(k - 1) - 1 && (Pow2(k) - 1) % 2 == 1
  {
  }

  lemma {:induction false} OrDisjoint(low: nat, high: nat, k: nat)
    requires low < Pow2(k) && high % Pow2(k) == 0
    ensures Or(low, high) == low + high == Or(high, low)
  {
    if low != 0 && high != 0 {
      ModPow2(high, k);
      OrDisjoint(low / 2, high / 2, k - 1);
    }
  }

  lemma AndDouble(x: nat, y: nat)
    ensures And(x, 2 * y) == 2 * And(x / 2, y)
  {
  }

  lemma HalfThenDivide(x: nat, p: nat)
    requires p > 0
    ensures Quot(x / 2, p) == Quot(x, 2 * p)
  {
    var q, r := x / 2 / p, x / 2 % p;
    assert x / 2 == p * q + r;
    assert x == (2 * p) * q + (2 * r + x % 2);
    DivModUnique(x, 2 * p, q, 2 * r + x % 2);
  }

  function Times(p: nat, y: nat): nat {
    p * y
  }

  /** A mask whose low `k` digits are clear acts on the other digits alone. */
  lemma {:induction false} AndShift(x: nat, y: nat, k: nat)
    ensures And(x, Times(Pow2(k), y)) == Pow2(k) * And(Quot(x, Pow2(k)), y)
  {
    if k > 0 {
      AndShift(x / 2, y, k - 1);
      AndShiftStep(x, y, Pow2(k - 1));
    }
  }

  lemma AndShiftStep(x: nat, y: nat, p: nat)
    requires p > 0 && And(x / 2, Times(p, y)) == p * And(Quot(x / 2, p), y)
    ensures And(x, Times(2 * p, y)) == 2 * p * And(Quot(x, 2 * p), y)
  {
    hide And, Quot;
    AndDouble(x, Times(p, y));
    HalfThenDivide(x, p);
    assert Times(2 * p, y) == 2 * Times(p, y);
    MulAssoc(2, p, And(Quot(x, 2 * p), y));
  }

  lemma MulAssoc(a: nat, b: nat, c: nat)
    ensures a * b * c == a * (b * c)
  {
  }
}
