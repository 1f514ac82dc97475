/** The alignment helpers the write buffer relies on (is_power_of_2,
    mod_by_power_of_2, round_up_to_multiple_of_power_of_2), stated
    arithmetically rather than by bit masks. */
module Bitwise {

  /** x is 2^k for some k; zero is not a power of two. */
  predicate IsPowerOf2(x: nat)
    ensures IsPowerOf2(x) ==> x >= 1
  {
    if x <= 1 then x == 1 else x % 2 == 0 && IsPowerOf2(x / 2)
  }

  /** The remainder of x by a power of two (a bit mask in the source): what
      is left above the largest multiple of the alignment not beyond x. */
  function ModByPowerOf2(x: nat, alignment: nat): (r: nat)
    requires IsPowerOf2(alignment)
    ensures r < alignment && r <= x
    ensures (x - r) % alignment == 0
  {
    RemainderLeavesMultiple(x, alignment);
    x % alignment
  }

  /** The smallest multiple of `alignment` that is not below x. */
  function RoundUpToMultipleOfPowerOf2(x: nat, alignment: nat): (r: nat)
    requires IsPowerOf2(alignment)
    ensures r % alignment == 0
    ensures x <= r < x + alignment
  {
    var q := (x + alignment - 1) / alignment;
    MultipleMod(q, alignment);
    q * alignment
  }

  /** A positive multiple of a positive number is at least that number. */
  lemma MulAtLeast(a: nat, k: nat)
    requires a > 0 && k >= 1
    ensures a * k >= a
  {
    assert a * k == a * (k - 1) + a;
  }

  lemma {:induction false} MultipleMod(q: nat, a: nat)
    requires a > 0
    ensures (q * a) % a == 0
  {
    var d, r := (q * a) / a, (q * a) % a;
    assert q * a == a * d + r;
    if q > d {
      assert a * q == a * d + a * (q - d);
      MulAtLeast(a, q - d);
    } else if q < d {
      assert a * d == a * q + a * (d - q);
      MulAtLeast(a, d - q);
    }
  }

  /** Taking away the remainder leaves a multiple. */
  lemma RemainderLeavesMultiple(x: nat, a: nat)
    requires a > 0
    ensures (x - x % a) % a == 0
  {
    var q, r := x / a, x % a;
    assert x == a * q + r;
    assert x - r == q * a;
    MultipleMod(q, a);
  }

  /** Two multiples of a positive `a` that are less than `a` apart are equal. */
  lemma {:induction false} CloseMultiplesEqual(x: nat, y: nat, a: nat)
    requires a > 0 && x % a == 0 && y % a == 0
    requires x <= y < x + a
    ensures x == y
  {
    var i, j := x / a, y / a;
    assert x == a * i && y == a * j;
    if j > i {
      assert a * j == a * i + a * (j - i);
      MulAtLeast(a, j - i);
    } else if j < i {
      assert a * i == a * j + a * (i - j);
      MulAtLeast(a, i - j);
    }
  }

  /** Rounding up never passes an aligned bound above x: it gives the LEAST multiple. */
  lemma {:induction false} RoundUpIsLeast(x: nat, alignment: nat, m: nat)
    requires IsPowerOf2(alignment) && m % alignment == 0 && x <= m
    ensures RoundUpToMultipleOfPowerOf2(x, alignment) <= m
  {
    var r := RoundUpToMultipleOfPowerOf2(x, alignment);
    if r > m {
      CloseMultiplesEqual(m, r, alignment);
    }
  }

  /** Rounding up an aligned value leaves it unchanged. */
  lemma {:induction false} RoundUpOfMultiple(x: nat, alignment: nat)
    requires IsPowerOf2(alignment) && x % alignment == 0
    ensures RoundUpToMultipleOfPowerOf2(x, alignment) == x
  {
    RoundUpIsLeast(x, alignment, x);
  }

  /** A smaller power of two divides a larger one. */
  lemma {:induction false} PowerOf2Divides(a: nat, b: nat)
    requires IsPowerOf2(a) && IsPowerOf2(b) && a <= b
    ensures b % a == 0
  {
    if a == 1 {
    } else {
      var a', b' := a / 2, b / 2;
      PowerOf2Divides(a', b');
      var k := b' / a';
      assert b' == a' * k;
      assert b == a * k;
      MultipleMod(k, a);
    }
  }

  /** Twice a power of two is a power of two. */
  lemma DoublePowerOf2(z: nat)
    requires IsPowerOf2(z)
    ensures IsPowerOf2(2 * z)
  {
    assert (2 * z) / 2 == z;
  }

  /** 256 times a power of two is a power of two. */
  lemma Times256PowerOf2(z: nat)
    requires IsPowerOf2(z)
    ensures IsPowerOf2(256 * z)
  {
    var z1 := 2 * z;
    DoublePowerOf2(z);
    var z2 := 2 * z1;
    DoublePowerOf2(z1);
    var z3 := 2 * z2;
    DoublePowerOf2(z2);
    var z4 := 2 * z3;
    DoublePowerOf2(z3);
    var z5 := 2 * z4;
    DoublePowerOf2(z4);
    var z6 := 2 * z5;
    DoublePowerOf2(z5);
    var z7 := 2 * z6;
    DoublePowerOf2(z6);
    DoublePowerOf2(z7);
    assert 256 * z == 2 * z7;
  }

  /** Every power of two up to 2^64 divides 2^64. */
  lemma PowerOf2DividesModulus(a: nat)
    requires IsPowerOf2(a) && a <= 0x1_0000_0000_0000_0000
    ensures 0x1_0000_0000_0000_0000 % a == 0
  {
    var p: nat := 1;
    assert IsPowerOf2(p);
    Times256PowerOf2(p);
    Times256PowerOf2(0x100);
    Times256PowerOf2(0x1_0000);
    Times256PowerOf2(0x100_0000);
    Times256PowerOf2(0x1_0000_0000);
    Times256PowerOf2(0x100_0000_0000);
    Times256PowerOf2(0x1_0000_0000_0000);
    Times256PowerOf2(0x100_0000_0000_0000);
    PowerOf2Divides(a, 0x1_0000_0000_0000_0000);
  }

  /** Multiplying by a positive number preserves order, so it can be cancelled. */
  lemma MulCancelLe(a: nat, i: nat, j: nat)
    requires a > 0 && a * j <= a * i
    ensures j <= i
  {
    if j > i {
      assert a * j == a * i + a * (j - i);
      MulAtLeast(a, j - i);
    }
  }

  /** The difference of two aligned values is aligned. */
  lemma AlignedDifference(x: nat, y: nat, a: nat)
    requires a > 0 && x % a == 0 && y % a == 0 && y <= x
    ensures (x - y) % a == 0
  {
    var i, j := x / a, y / a;
    assert x == a * i && y == a * j;
    MulCancelLe(a, i, j);
    var d := i - j;
    assert x - y == d * a by {
      assert a * i == a * j + a * d;
    }
    MultipleMod(d, a);
  }
}
