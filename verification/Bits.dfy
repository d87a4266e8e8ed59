/**
  * Fixed-width bitwise operators on natural numbers, defined bit by bit from the least
  * significant end, with the facts the scan and the samplers need.
  */
module Bits {

  newtype Byte = n: int | 0 <= n < 256

  function Pow2(n: nat): (p: nat)
    ensures p >= 1
  {
    if n == 0 then 1 else 2 * Pow2(n - 1)
  }

  predicate Bit(w: nat, i: nat) {
    if i == 0 then w % 2 == 1 else Bit(w / 2, i - 1)
  }

  /** `x | y` */
  function Or(x: nat, y: nat): nat {
    if x == 0 && y == 0 then 0
    else 2 * Or(x / 2, y / 2) + (if x % 2 == 1 || y % 2 == 1 then 1 else 0)
  }

  /** `x & y` */
  function And(x: nat, y: nat): nat {
    if x == 0 || y == 0 then 0
    else 2 * And(x / 2, y / 2) + (if x % 2 == 1 && y % 2 == 1 then 1 else 0)
  }

  /** `^x`, on words of `width` bits */
  function Complement(x: nat, width: nat): nat {
    if width == 0 then 0 else 2 * Complement(x / 2, width - 1) + (1 - x % 2)
  }

  /** The number of zero bits below the lowest set bit. */
  function TrailingZeros(x: nat): nat
    requires x > 0
  {
    if x % 2 == 1 then 0 else 1 + TrailingZeros(x / 2)
  }

  lemma {:induction false} OrBit(x: nat, y: nat, i: nat)
    ensures Bit(Or(x, y), i) == (Bit(x, i) || Bit(y, i))
  {
    if i == 0 {
    } else if x == 0 && y == 0 {
      OrBit(0, 0, i - 1);
    } else {
      OrBit(x / 2, y / 2, i - 1);
    }
  }

  lemma {:induction false} OrBound(x: nat, y: nat, width: nat)
    requires x < Pow2(width) && y < Pow2(width)
    ensures Or(x, y) < Pow2(width)
  {
    if x != 0 || y != 0 {
      OrBound(x / 2, y / 2, width - 1);
    }
  }

  lemma {:induction false} Pow2Bit(b: nat, i: nat)
    ensures Bit(Pow2(b), i) == (i == b)
  {
    if i == 0 {
    } else if b == 0 {
      ZeroBit(i - 1);
    } else {
      Pow2Bit(b - 1, i - 1);
    }
  }

  lemma {:induction false} Pow2Monotone(a: nat, b: nat)
    requires a < b
    ensures Pow2(a) < Pow2(b)
  {
    if a + 1 < b {
      Pow2Monotone(a, b - 1);
    }
  }

  lemma Pow2Of63()
    ensures Pow2(63) == 0x8000_0000_0000_0000
  {
    assert Pow2(10) == 0x400;
    assert Pow2(20) == 0x10_0000;
    assert Pow2(30) == 0x4000_0000;
    assert Pow2(40) == 0x100_0000_0000;
    assert Pow2(50) == 0x4_0000_0000_0000;
    assert Pow2(60) == 0x1000_0000_0000_0000;
  }

  lemma {:induction false} ZeroBit(i: nat)
    ensures !Bit(0, i)
  {
    if i != 0 {
      ZeroBit(i - 1);
    }
  }

  lemma {:induction false} ComplementBit(x: nat, width: nat, i: nat)
    requires i < width
    ensures Bit(Complement(x, width), i) == !Bit(x, i)
  {
    if i != 0 {
      ComplementBit(x / 2, width - 1, i - 1);
    }
  }

  lemma {:induction false} ComplementBound(x: nat, width: nat)
    ensures Complement(x, width) < Pow2(width)
  {
    if width != 0 {
      ComplementBound(x / 2, width - 1);
    }
  }

  lemma {:induction false} TrailingZerosIsLowestBit(x: nat, width: nat)
    requires 0 < x < Pow2(width)
    ensures TrailingZeros(x) < width
    ensures Bit(x, TrailingZeros(x))
    ensures forall i :: 0 <= i < TrailingZeros(x) ==> !Bit(x, i)
  {
    if x % 2 == 0 {
      TrailingZerosIsLowestBit(x / 2, width - 1);
      forall i | 0 <= i < TrailingZeros(x)
        ensures !Bit(x, i)
      {
        if i != 0 {
          assert !Bit(x / 2, i - 1);
        }
      }
    }
  }

  /** The power-of-two test `n & (n-1) == 0`, and what the mask `v & (n-1)` then computes. */
  lemma {:induction false} MaskIsRemainder(v: nat, n: nat)
    requires n > 0 && And(n, n - 1) == 0
    ensures And(v, n - 1) == v % n
  {
    if n % 2 == 1 {
      AndSelf(n / 2);
      assert n == 1;
    } else {
      var m := n / 2;
      assert (n - 1) / 2 == m - 1 && (n - 1) % 2 == 1;
      assert And(m, m - 1) == 0;
      MaskIsRemainder(v / 2, m);
      RemainderByDouble(v, m);
      if v == 0 {
      } else {
        assert And(v, n - 1) == 2 * And(v / 2, m - 1) + v % 2;
      }
    }
  }

  /** A power of two divides every larger one. */
  lemma PowerOfTwoDivides(n: nat, k: nat)
    requires n > 0 && And(n, n - 1) == 0 && n <= Pow2(k)
    ensures Pow2(k) % n == 0
  {
    MaskIsRemainder(Pow2(k), n);
    AndPow2(k, n - 1);
  }

  lemma {:induction false} AndPow2(k: nat, x: nat)
    requires x < Pow2(k)
    ensures And(Pow2(k), x) == 0
  {
    if k != 0 && x != 0 {
      AndPow2(k - 1, x / 2);
    }
  }

  lemma {:induction false} AndSelf(x: nat)
    ensures And(x, x) == x
  {
    if x != 0 {
      AndSelf(x / 2);
    }
  }

  lemma RemainderByDouble(v: nat, m: nat)
    requires m > 0
    ensures v % (2 * m) == 2 * ((v / 2) % m) + v % 2
  {
    var q, r := (v / 2) / m, (v / 2) % m;
    assert v / 2 == q * m + r;
    assert v == q * (2 * m) + (2 * r + v % 2);
    RemainderUnique(v, 2 * m, q, 2 * r + v % 2);
  }

  lemma RemainderUnique(v: nat, d: nat, q: nat, r: nat)
    requires r < d && v == q * d + r
    ensures v % d == r && v / d == q
  {
    var k := v / d - q;
    assert k * d == r - v % d by {
      assert v == (v / d) * d + v % d;
    }
    NonZeroMultiple(k, d);
  }

  /** A nonzero multiple of `d` is at least `d` away from zero. */
  lemma NonZeroMultiple(k: int, d: int)
    requires d > 0
    ensures k > 0 ==> k * d >= d
    ensures k < 0 ==> k * d <= -d
  {
    if k > 0 {
      PositiveMultiple(k, d);
    }
    if k < 0 {
      PositiveMultiple(-k, d);
      assert k * d == -((-k) * d);
    }
  }

  lemma {:induction false} PositiveMultiple(k: int, d: int)
    requires k > 0 && d > 0
    ensures k * d >= d
  {
    if k > 1 {
      PositiveMultiple(k - 1, d);
      assert k * d == (k - 1) * d + d;
    }
  }
}
