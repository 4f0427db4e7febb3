/**
 * Multiples of powers of two over plain integers: the arithmetic behind the seeded RAM test.
 */
module Multiples {
  import opened Words

  lemma Distributes(a: int, b: int, c: int)
    ensures (a + b) * c == a * c + b * c
  {
  }

  lemma Regroups(a: int, b: int, c: int)
    ensures a * (b * c) == (a * b) * c == b * (a * c)
  {
  }

  lemma NotAMultiple(d: int, r: int, p: int)
    requires 0 < -d < p
    ensures d != r * p
  {
    if r <= -1 {
      assert r * p <= -p;
    } else {
      assert r * p >= 0;
    }
  }

  lemma HalfOfOddProduct(d: int, t: int, y: int)
    requires d * (2 * t + 1) == 2 * y
    ensures d == 2 * (y - d * t) && (y - d * t) * (2 * t + 1) == y
  {
    var e := y - d * t;
    assert d * (2 * t + 1) == 2 * (d * t) + d;
    assert (2 * e) * (2 * t + 1) == 2 * (e * (2 * t + 1));
  }

  /** An odd factor cannot supply factors of two. */
  lemma {:induction false} OddFactorCancels(m: nat, d: int, odd: int, q: int) returns (r: int)
    requires odd % 2 == 1 && d * odd == q * Pow2(m)
    ensures d == r * Pow2(m)
  {
    if m == 0 {
      r := d;
    } else {
      var t, y := odd / 2, q * Pow2(m - 1);
      assert q * Pow2(m) == 2 * y by {
        Regroups(q, 2, Pow2(m - 1));
      }
      HalfOfOddProduct(d, t, y);
      var e := y - d * t;
      r := OddFactorCancels(m - 1, e, odd, q);
      Regroups(2, r, Pow2(m - 1));
      assert r * (2 * Pow2(m - 1)) == 2 * (r * Pow2(m - 1));
    }
  }

  /** A number above -2^m, times an odd number, is no multiple of 2^m, nor is it after scaling both. */
  lemma OddMultipleSurvives(m: nat, scale: int, d: int, odd: int, q: int, factor: int, limit: int)
    requires 0 < -d < Pow2(m) && odd % 2 == 1 && scale > 0
    requires factor == scale * odd && limit == scale * Pow2(m)
    ensures d * factor != q * limit
  {
    if d * odd == q * Pow2(m) {
      var r := OddFactorCancels(m, d, odd, q);
      NotAMultiple(d, r, Pow2(m));
    }
    Regroups(d, scale, odd);
    Regroups(q, scale, Pow2(m));
    ScalingKeepsOrder(scale, d * odd, q * Pow2(m));
  }

  lemma MultiplesCombine(d: int, t: int, p: int, scale: int, odd: int, factor: int, limit: int)
    requires d == t * p && factor == scale * odd && limit == scale * p
    ensures d * factor == (t * odd) * limit
  {
    Regroups(t * p, scale, odd);
    Regroups(t, p, odd);
    Regroups(t * odd, scale, p);
    assert (t * p) * odd == (t * odd) * p;
  }

  lemma Pow2Splits(a: nat, n: nat)
    requires a <= n
    ensures Pow2(n) == Pow2(a) * Pow2(n - a)
  {
    Pow2Add(a, n - a);
  }

  /** The largest power of two that divides x. */
  function TwoPart(x: nat): (g: nat)
    requires x > 0
    ensures 0 < g <= x
  {
    if x % 2 == 1 then 1 else 2 * TwoPart(x / 2)
  }

  lemma {:induction false} TwoPartSplits(x: nat) returns (a: nat, odd: nat)
    requires x > 0
    ensures TwoPart(x) == Pow2(a) && odd % 2 == 1 && x == Pow2(a) * odd
  {
    if x % 2 == 1 {
      a, odd := 0, x;
    } else {
      a, odd := TwoPartSplits(x / 2);
      Regroups(2, Pow2(a), odd);
      a := a + 1;
    }
  }

  // ----- Common divisors with a power of two -----

  predicate Divides(d: nat, x: nat)
    requires d > 0
  {
    x % d == 0
  }

  lemma MultipleIsDivided(d: nat, w: nat, x: nat)
    requires d > 0 && x == d * w
    ensures Divides(d, x)
  {
    var q, r := x / d, x % d;
    assert x == d * q + r;
    if r > 0 {
      ScalingKeepsOrder(d, q, w);
      ScalingKeepsOrder(d, w, q + 1);
    }
  }

  lemma DividedIsMultiple(d: nat, x: nat) returns (u: nat)
    requires d > 0 && Divides(d, x)
    ensures x == d * u
  {
    u := x / d;
  }

  lemma DividesProduct(d: nat, x: nat, y: nat, product: nat)
    requires d > 0 && Divides(d, x) && product == x * y
    ensures Divides(d, product)
  {
    var u := DividedIsMultiple(d, x);
    Regroups(d, u, y);
    MultipleIsDivided(d, u * y, product);
  }

  lemma ProductNotOne(d: nat, r: int)
    requires d != 1
    ensures d * r != 1
  {
    if r <= 0 {
      assert d * r <= 0;
    } else if d > 0 {
      assert d * r >= d;
    }
  }

  lemma FactorIsOne(d: nat, r: int, p: nat, v: int)
    requires p > 0 && v == r * p && p == d * v
    ensures d == 1
  {
    Regroups(d, r, p);
    ScalingKeepsOrder(p, d * r, 1);
    if d != 1 {
      ProductNotOne(d, r);
    }
  }

  lemma OddDivisorIsOne(d: nat, n: nat, v: nat)
    requires d % 2 == 1 && Pow2(n) == d * v
    ensures d == 1
  {
    var r := OddFactorCancels(n, v, d, 1);
    FactorIsOne(d, r, Pow2(n), v);
  }

  /** A common divisor of x and a power of two divides the largest power of two in x. */
  lemma {:induction false} CommonDivisor(d: nat, x: nat, u: nat, n: nat, v: nat) returns (w: nat)
    requires x > 0 && x == d * u && Pow2(n) == d * v
    ensures TwoPart(x) == d * w
  {
    if d % 2 == 1 {
      OddDivisorIsOne(d, n, v);
      w := TwoPart(x);
    } else {
      var h := d / 2;
      Regroups(2, h, u);
      Regroups(2, h, v);
      w := CommonDivisor(h, x / 2, u, n - 1, v);
      Regroups(2, h, w);
    }
  }
}
