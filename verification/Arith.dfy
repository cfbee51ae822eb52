/** Integer arithmetic shared by every allocator: src/utils/math.rs and its laws. */
module Arith {

  function DivCeil(x: nat, y: nat): (r: nat)
    requires y > 0
  {
    (x + y - 1) / y
  }

  function RoundUp(number: nat, multiple: nat): (r: nat)
    requires multiple > 0
  {
    (number + multiple - 1) / multiple * multiple
  }

  function Quot(x: nat, y: nat): nat
    requires y > 0
  {
    x / y
  }

  lemma MulMono(d: nat, m: int, n: int)
    requires m <= n
    ensures d * m <= d * n
  {
  }

  lemma MulDist(d: int, m: int, n: int)
    ensures d * (m + n) == d * m + d * n
  {
  }

  lemma DivModUnique(x: int, d: nat, q: int, r: nat)
    requires d > 0 && r < d && x == d * q + r
    ensures x / d == q && x % d == r
  {
    var q', r' := x / d, x % d;
    assert x == d * q' + r';
    if q < q' {
      MulMono(d, q + 1, q');
      MulDist(d, q, 1);
      assert false;
    }
    if q > q' {
      MulMono(d, q' + 1, q);
      MulDist(d, q', 1);
      assert false;
    }
  }

  /** `DivCeil(x, y)` is the least number of `y`-sized units that hold `x`. */
  lemma DivCeilLeast(x: nat, y: nat)
    requires y > 0
    ensures DivCeil(x, y) * y >= x
    ensures forall k: nat :: k * y >= x ==> k >= DivCeil(x, y)
    ensures x > 0 ==> (DivCeil(x, y) - 1) * y < x
  {
    var q := DivCeil(x, y);
    var r := (x + y - 1) % y;
    assert x + y - 1 == y * q + r;
    MulDist(y, q, -1);
    forall k: nat | k * y >= x ensures k >= q {
      if k < q {
        MulMono(y, k, q - 1);
        assert false;
      }
    }
  }

  lemma QuotAtMostDivCeil(x: nat, y: nat)
    requires y > 0
    ensures Quot(x, y) <= DivCeil(x, y)
  {
    var q, c := Quot(x, y), DivCeil(x, y);
    assert x == y * q + x % y && x + y - 1 == y * c + (x + y - 1) % y;
    if q > c {
      UnitsOrdered(y, c, q);
      assert false;
    }
  }

  /** What lies before `n` lies in one of the units that hold `n`. */
  lemma QuotBelow(x: nat, n: nat, y: nat)
    requires y > 0 && x < n
    ensures x / y < DivCeil(n, y)
  {
    var q, c := x / y, DivCeil(n, y);
    assert x == y * q + x % y && n + y - 1 == y * c + (n + y - 1) % y;
    if q >= c {
      MulMono(y, c, q);
      assert false;
    }
  }

  lemma MultipleOf(q: nat, y: nat)
    requires y > 0
    ensures q * y % y == 0
  {
    DivModUnique(q * y, y, q, 0);
  }

  /** `RoundUp(x, y)` is the least multiple of `y` that is at least `x`. */
  lemma RoundUpLeast(x: nat, y: nat)
    requires y > 0
    ensures RoundUp(x, y) == DivCeil(x, y) * y
    ensures RoundUp(x, y) % y == 0
    ensures x <= RoundUp(x, y) < x + y
    ensures forall k: nat :: k * y >= x ==> k * y >= RoundUp(x, y)
  {
    var q := DivCeil(x, y);
    assert x + y - 1 == y * q + (x + y - 1) % y;
    MultipleOf(q, y);
    forall k: nat | k * y >= x ensures k * y >= RoundUp(x, y) {
      DivCeilLeast(x, y);
      MulMono(y, q, k);
    }
  }

  /** Distinct units of one size occupy disjoint, ordered spans. */
  lemma UnitsOrdered(d: nat, m: nat, n: nat)
    requires m < n
    ensures m * d + d <= n * d
  {
    MulMono(d, m + 1, n);
    MulDist(d, m, 1);
  }
}
