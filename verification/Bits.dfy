/** Powers of two and floor logarithms, the arithmetic behind `1u64 << order`. */
module Bits {

  const U64_LIMIT: nat := 0x1_0000_0000_0000_0000
  const U32_LIMIT: nat := 0x1_0000_0000

  function Pow2(n: nat): (r: nat)
    ensures r >= 1
  {
    if n == 0 then 1 else 2 * Pow2(n - 1)
  }

  lemma {:induction false} Pow2Monotone(a: nat, b: nat)
    requires a <= b
    ensures Pow2(a) <= Pow2(b)
    ensures a < b ==> 2 * Pow2(a) <= Pow2(b)
  {
    if a < b {
      Pow2Monotone(a, b - 1);
    }
  }

  /** A smaller power of two divides a larger one. */
  lemma {:induction false} Pow2Factor(a: nat, b: nat) returns (k: nat)
    requires a <= b
    ensures k >= 1 && Pow2(b) == k * Pow2(a)
    ensures a < b ==> k % 2 == 0
  {
    if a == b {
      k := 1;
    } else {
      var k' := Pow2Factor(a, b - 1);
      k := 2 * k';
    }
  }

  /** Being a multiple of a power of two passes down to smaller powers. */
  lemma AlignedDown(x: nat, a: nat, b: nat)
    requires a <= b
    requires x % Pow2(b) == 0
    ensures x % Pow2(a) == 0
  {
    var k := Pow2Factor(a, b);
    var q := Quotient(x, Pow2(b));
    MulAssoc(q, k, Pow2(a));
    MultipleMod(q * k, Pow2(a));
  }

  lemma MulAssoc(a: nat, b: nat, c: nat)
    ensures a * (b * c) == (a * b) * c
  {
  }

  lemma Quotient(x: nat, d: nat) returns (q: nat)
    requires d > 0 && x % d == 0
    ensures x == q * d && q == x / d
  {
    q := x / d;
  }

  lemma MulSuccLe(a: nat, b: nat, d: nat)
    requires a < b
    ensures a * d + d <= b * d
  {
    var c := b - a - 1;
    assert b * d == (a + 1 + c) * d == a * d + d + c * d;
  }

  /** Quotient and remainder are the only decomposition with a small remainder. */
  lemma DecompositionUnique(d: nat, q: nat, r: nat, q': nat, r': nat)
    requires r < d && r' < d && q * d + r == q' * d + r'
    ensures q == q' && r == r'
  {
    if q < q' {
      MulSuccLe(q, q', d);
    } else if q' < q {
      MulSuccLe(q', q, d);
    }
  }

  lemma DivModUnique(x: nat, d: nat, q: nat, r: nat)
    requires d > 0 && r < d && x == q * d + r
    ensures x / d == q && x % d == r
  {
    DecompositionUnique(d, q, r, x / d, x % d);
  }

  lemma MultipleMod(q: nat, d: nat)
    requires d > 0
    ensures (q * d) % d == 0 && (q * d) / d == q
  {
    DivModUnique(q * d, d, q, 0);
  }

  /** Two different multiples of d are at least d apart. */
  lemma MultiplesApart(x: nat, y: nat, d: nat)
    requires d > 0 && x % d == 0 && y % d == 0 && x < y
    ensures x + d <= y
  {
    var i := Quotient(x, d);
    var j := Quotient(y, d);
    if i < j {
      MulSuccLe(i, j, d);
    } else if j < i {
      MulSuccLe(j, i, d);
    }
  }

  /** The low `o` bits of x are zero. */
  predicate LowBitsZero(x: nat, o: nat)
    decreases o
  {
    o == 0 || (x % 2 == 0 && LowBitsZero(x / 2, o - 1))
  }

  lemma DoubleMultiple(x: nat, q: nat, d: nat)
    requires x % 2 == 0 && x / 2 == q * d
    ensures x == q * (2 * d)
  {
  }

  lemma HalfMultiple(x: nat, q: nat, d: nat)
    requires x == q * (2 * d)
    ensures x % 2 == 0 && x / 2 == q * d
  {
    assert x == 2 * (q * d);
  }

  /** `x.is_multiple_of(1 << o)` says that the low `o` bits of x are zero. */
  lemma {:induction false} MultipleOfPow2(x: nat, o: nat)
    ensures LowBitsZero(x, o) <==> x % Pow2(o) == 0
    decreases o
  {
    if o == 0 {
      MultipleMod(x, 1);
    } else {
      MultipleOfPow2(x / 2, o - 1);
      if x % 2 == 0 && (x / 2) % Pow2(o - 1) == 0 {
        LowBitsMultiple(x, Pow2(o - 1));
      }
      if x % Pow2(o) == 0 {
        MultipleLowBits(x, Pow2(o - 1));
      }
    }
  }

  lemma LowBitsMultiple(x: nat, d: nat)
    requires d > 0 && x % 2 == 0 && (x / 2) % d == 0
    ensures x % (2 * d) == 0
  {
    var q := Quotient(x / 2, d);
    DoubleMultiple(x, q, d);
    MultipleMod(q, 2 * d);
  }

  lemma MultipleLowBits(x: nat, d: nat)
    requires d > 0 && x % (2 * d) == 0
    ensures x % 2 == 0 && (x / 2) % d == 0
  {
    var q := Quotient(x, 2 * d);
    HalfMultiple(x, q, d);
    MultipleMod(q, d);
  }

  lemma SumAligned(x: nat, y: nat, d: nat)
    requires d > 0 && x % d == 0 && y % d == 0
    ensures (x + y) % d == 0
  {
    var i := Quotient(x, d);
    var j := Quotient(y, d);
    assert x + y == (i + j) * d;
    MultipleMod(i + j, d);
  }

  /** `63 - leading_zeros(n)`: the position of the highest set bit. */
  function FloorLog2(n: nat): (r: nat)
    requires n > 0
    ensures Pow2(r) <= n < Pow2(r + 1)
  {
    if n == 1 then 0 else 1 + FloorLog2(n / 2)
  }
}
