/**
 * Unsigned 32-bit machine words as natural numbers. The bitwise operators of C are described by
 * the bits they produce; `Bit` peels bits off the low end, so every induction here is linear.
 */
module Words {
  type Word = x: nat | x < 0x1_0000_0000

  function Pow2(n: nat): (p: nat)
    ensures p >= 1
  {
    if n == 0 then 1 else 2 * Pow2(n - 1)
  }

  /** Whether bit `b` of `x` is set. */
  predicate Bit(x: nat, b: nat) {
    if b == 0 then x % 2 == 1 else Bit(x / 2, b - 1)
  }

  /** The number below Pow2(n) whose bit b is bits(b). */
  function FromBits(n: nat, bits: nat -> bool): (x: nat)
    ensures x < Pow2(n)
  {
    if n == 0 then 0
    else (if bits(0) then 1 else 0) + 2 * FromBits(n - 1, (b: nat) => bits(b + 1))
  }

  lemma {:induction false} FromBitsBit(n: nat, bits: nat -> bool, b: nat)
    requires b < n
    ensures Bit(FromBits(n, bits), b) == bits(b)
  {
    if b > 0 {
      FromBitsBit(n - 1, (c: nat) => bits(c + 1), b - 1);
    }
  }

  lemma {:induction false} SameBits(n: nat, x: nat, y: nat)
    requires x < Pow2(n) && y < Pow2(n)
    requires forall b :: 0 <= b < n ==> Bit(x, b) == Bit(y, b)
    ensures x == y
  {
    if n > 0 {
      assert Bit(x, 0) == Bit(y, 0);
      forall b | 0 <= b < n - 1
        ensures Bit(x / 2, b) == Bit(y / 2, b)
      {
        assert Bit(x, b + 1) == Bit(y, b + 1);
      }
      SameBits(n - 1, x / 2, y / 2);
    }
  }

  lemma {:induction false} ZeroBit(b: nat)
    ensures !Bit(0, b)
  {
    if b > 0 {
      ZeroBit(b - 1);
    }
  }

  lemma {:induction false} Pow2Bit(i: nat, b: nat)
    ensures Bit(Pow2(i), b) <==> i == b
  {
    if i > 0 && b > 0 {
      Pow2Bit(i - 1, b - 1);
    } else if i == 0 && b > 0 {
      ZeroBit(b - 1);
    }
  }

  lemma {:induction false} ComplementBit(n: nat, x: nat, b: nat)
    requires x < Pow2(n) && b < n
    ensures Bit(Pow2(n) - 1 - x, b) == !Bit(x, b)
  {
    assert Pow2(n) == 2 * Pow2(n - 1);
    if b > 0 {
      assert (Pow2(n) - 1 - x) / 2 == Pow2(n - 1) - 1 - x / 2;
      ComplementBit(n - 1, x / 2, b - 1);
    }
  }

  lemma DoubledProduct(p: int, q: int)
    ensures 2 * (p * q) == (2 * p) * q
  {
  }

  lemma {:induction false} Pow2Add(a: nat, b: nat)
    ensures Pow2(a + b) == Pow2(a) * Pow2(b)
  {
    if a > 0 {
      Pow2Add(a - 1, b);
      DoubledProduct(Pow2(a - 1), Pow2(b));
    }
  }

  lemma Pow2At16()
    ensures Pow2(16) == 0x1_0000
  {
    assert Pow2(4) == 16;
    Pow2Add(4, 4);
    Pow2Add(8, 8);
  }

  lemma Pow2At32()
    ensures Pow2(32) == 0x1_0000_0000
  {
    Pow2At16();
    Pow2Add(16, 16);
  }

  lemma {:induction false} Pow2Increasing(a: nat, b: nat)
    requires a < b
    ensures Pow2(a) < Pow2(b)
    decreases b
  {
    if a < b - 1 {
      Pow2Increasing(a, b - 1);
    }
  }

  /** The C expression `~x` on a uint32_t. */
  function Not(x: Word): Word {
    0x1_0000_0000 - 1 - x
  }

  lemma NotBit(x: Word, b: nat)
    requires b < 32
    ensures Bit(Not(x), b) == !Bit(x, b)
  {
    Pow2At32();
    ComplementBit(32, x, b);
  }

  /** The C expression `1 << i` on a uint32_t. */
  function ShiftedOne(i: nat): Word
    requires i < 32
  {
    Pow2At32();
    Pow2Increasing(i, 32);
    Pow2(i)
  }

  /** The 32-bit word whose bit b is bits(b). */
  function WordOf(bits: nat -> bool): Word {
    Pow2At32();
    FromBits(32, bits)
  }

  lemma WordOfBit(bits: nat -> bool, b: nat)
    requires b < 32
    ensures Bit(WordOf(bits), b) == bits(b)
  {
    FromBitsBit(32, bits, b);
  }

  lemma EqualWords(x: Word, y: Word)
    requires forall b :: 0 <= b < 32 ==> Bit(x, b) == Bit(y, b)
    ensures x == y
  {
    Pow2At32();
    SameBits(32, x, y);
  }

  // ----- Masks and shifts -----

  /** The C expressions `x & y` and `x | y`. */
  function And(x: nat, y: nat): nat {
    if x == 0 || y == 0 then 0
    else (if x % 2 == 1 && y % 2 == 1 then 1 else 0) + 2 * And(x / 2, y / 2)
  }

  function Or(x: nat, y: nat): nat
    decreases x + y
  {
    if x == 0 then y
    else if y == 0 then x
    else (if x % 2 == 1 || y % 2 == 1 then 1 else 0) + 2 * Or(x / 2, y / 2)
  }

  lemma LowBitAndRest(bit: nat, rest: nat)
    requires bit <= 1
    ensures (bit + 2 * rest) % 2 == bit && (bit + 2 * rest) / 2 == rest
  {
  }

  lemma {:induction false} AndBit(x: nat, y: nat, b: nat)
    ensures Bit(And(x, y), b) == (Bit(x, b) && Bit(y, b))
  {
    ZeroBit(b);
    if x > 0 && y > 0 {
      var bit := if x % 2 == 1 && y % 2 == 1 then 1 else 0;
      assert And(x, y) == bit + 2 * And(x / 2, y / 2);
      LowBitAndRest(bit, And(x / 2, y / 2));
      if b > 0 {
        AndBit(x / 2, y / 2, b - 1);
      }
    }
  }

  lemma {:induction false} OrBit(x: nat, y: nat, b: nat)
    ensures Bit(Or(x, y), b) == (Bit(x, b) || Bit(y, b))
  {
    ZeroBit(b);
    if x > 0 && y > 0 {
      var bit := if x % 2 == 1 || y % 2 == 1 then 1 else 0;
      assert Or(x, y) == bit + 2 * Or(x / 2, y / 2);
      LowBitAndRest(bit, Or(x / 2, y / 2));
      if b > 0 {
        OrBit(x / 2, y / 2, b - 1);
      }
    }
  }

  /** The C expression `(1 << k) - 1`. */
  function Mask(k: nat): nat {
    Pow2(k) - 1
  }

  function Shl(x: nat, k: nat): nat {
    if k == 0 then x else 2 * Shl(x, k - 1)
  }

  function Shr(x: nat, k: nat): nat {
    if k == 0 then x else Shr(x / 2, k - 1)
  }

  /** The low k bits of x. */
  function Low(x: nat, k: nat): (r: nat)
    ensures r < Pow2(k)
  {
    if k == 0 then 0 else x % 2 + 2 * Low(x / 2, k - 1)
  }

  lemma {:induction false} AndMaskIsLow(x: nat, k: nat)
    ensures And(x, Mask(k)) == Low(x, k)
  {
    if k > 0 {
      assert Mask(k) / 2 == Mask(k - 1) && Mask(k) % 2 == 1;
      AndMaskIsLow(x / 2, k - 1);
    }
  }

  lemma {:induction false} LowIsSame(x: nat, k: nat)
    requires x < Pow2(k)
    ensures Low(x, k) == x
  {
    if k > 0 {
      LowIsSame(x / 2, k - 1);
    }
  }

  lemma {:induction false} OrOfDisjointIsSum(x: nat, k: nat, low: nat)
    requires low < Pow2(k)
    ensures Or(Shl(x, k), low) == Shl(x, k) + low
  {
    if k > 0 {
      OrOfDisjointIsSum(x, k - 1, low / 2);
    }
  }

  lemma {:induction false} ShrOfSum(x: nat, k: nat, low: nat, sum: nat)
    requires low < Pow2(k) && sum == Shl(x, k) + low
    ensures Shr(sum, k) == x
  {
    if k > 0 {
      assert sum / 2 == Shl(x, k - 1) + low / 2;
      ShrOfSum(x, k - 1, low / 2, sum / 2);
    }
  }

  lemma {:induction false} LowOfSum(x: nat, k: nat, low: nat, sum: nat)
    requires low < Pow2(k) && sum == Shl(x, k) + low
    ensures Low(sum, k) == low
  {
    if k > 0 {
      assert sum / 2 == Shl(x, k - 1) + low / 2;
      LowOfSum(x, k - 1, low / 2, sum / 2);
    }
  }

  lemma {:induction false} LowSplits(x: nat, n: nat, k: nat, total: nat)
    requires total == n + k
    ensures Low(x, total) == Shl(Low(Shr(x, k), n), k) + Low(x, k)
  {
    if k > 0 {
      LowSplits(x / 2, n, k - 1, total - 1);
    }
  }

  lemma {:induction false} LowOfShl(x: nat, n: nat, k: nat, total: nat)
    requires total == n + k
    ensures Low(Shl(x, k), total) == Shl(Low(x, n), k)
  {
    if k > 0 {
      LowBitAndRest(0, Shl(x, k - 1));
      assert Low(Shl(x, k), total) == 2 * Low(Shl(x, k - 1), total - 1);
      LowOfShl(x, n, k - 1, total - 1);
    }
  }

  lemma {:induction false} ShlBound(x: nat, n: nat, k: nat, total: nat)
    requires x < Pow2(n) && total == n + k
    ensures Shl(x, k) + Pow2(k) <= Pow2(total)
  {
    if k > 0 {
      ShlBound(x, n, k - 1, total - 1);
    }
  }

  lemma {:induction false} ShlMonotone(x: nat, y: nat, k: nat)
    requires x < y
    ensures Shl(x, k) + Pow2(k) <= Shl(y, k)
  {
    if k > 0 {
      ShlMonotone(x, y, k - 1);
    }
  }

  // ----- Shifts and masks as products, quotients and remainders -----

  lemma Positive(a: int, b: int)
    requires a > 0 && b > 0
    ensures a * b > 0
  {
  }

  lemma ScalingKeepsOrder(scale: int, x: int, y: int)
    requires scale > 0
    ensures x < y <==> scale * x < scale * y
    ensures x == y <==> scale * x == scale * y
  {
    if x < y {
      Positive(scale, y - x);
    } else if y < x {
      Positive(scale, x - y);
    }
  }

  lemma QuotientIs(x: nat, d: nat, q: nat, r: nat)
    requires x == d * q + r && r < d
    ensures x / d == q && x % d == r
  {
    var p := x / d;
    assert d * p <= x < d * p + d == d * (p + 1);
    assert d * (q + 1) == d * q + d;
    ScalingKeepsOrder(d, p, q + 1);
    ScalingKeepsOrder(d, q, p + 1);
  }

  lemma {:induction false} ShlIsProduct(x: nat, k: nat)
    ensures Shl(x, k) == x * Pow2(k)
  {
    if k > 0 {
      ShlIsProduct(x, k - 1);
      DoubledProduct(Pow2(k - 1), x);
    }
  }

  lemma {:induction false} ShlOfZero(k: nat)
    ensures Shl(0, k) == 0
  {
    if k > 0 {
      ShlOfZero(k - 1);
    }
  }

  lemma {:induction false} ShlAdds(x: nat, y: nat, k: nat)
    ensures Shl(x + y, k) == Shl(x, k) + Shl(y, k)
  {
    if k > 0 {
      ShlAdds(x, y, k - 1);
    }
  }

  lemma {:induction false} ShlTwice(x: nat, j: nat, k: nat, total: nat)
    requires total == j + k
    ensures Shl(Shl(x, j), k) == Shl(x, total)
  {
    if k > 0 {
      ShlTwice(x, j, k - 1, total - 1);
    }
  }

  lemma {:induction false} ShlIntoBits(x: nat, k: nat)
    ensures x == Shl(Shr(x, k), k) + Low(x, k)
  {
    if k > 0 {
      ShlIntoBits(x / 2, k - 1);
    }
  }

  /** A right shift is a quotient, a mask of low bits a remainder. */
  lemma ShrIsQuotient(x: nat, k: nat)
    ensures Shr(x, k) == x / Pow2(k) && Low(x, k) == x % Pow2(k)
  {
    ShlIntoBits(x, k);
    ShlIsProduct(Shr(x, k), k);
    QuotientIs(x, Pow2(k), Shr(x, k), Low(x, k));
  }

  lemma {:induction false} ShrBit(x: nat, k: nat, b: nat)
    ensures Bit(Shr(x, k), b) == Bit(x, b + k)
  {
    if k > 0 {
      ShrBit(x / 2, k - 1, b);
    }
  }

  lemma {:induction false} LowBit(x: nat, k: nat, b: nat)
    requires b < k
    ensures Bit(Low(x, k), b) == Bit(x, b)
  {
    LowBitAndRest(x % 2, Low(x / 2, k - 1));
    if b > 0 {
      LowBit(x / 2, k - 1, b - 1);
    }
  }

  lemma AndDoubled(x: nat, m: nat)
    ensures And(x, 2 * m) == 2 * And(x / 2, m)
  {
  }

  lemma {:induction false} AndShl(x: nat, m: nat, k: nat)
    ensures And(x, Shl(m, k)) == Shl(And(Shr(x, k), m), k)
  {
    if k > 0 {
      AndDoubled(x, Shl(m, k - 1));
      AndShl(x / 2, m, k - 1);
    }
  }

  /** What a mask of w bits from bit k on leaves of x. */
  lemma FieldIs(x: nat, w: nat, k: nat, mask: nat)
    requires mask == Shl(Mask(w), k)
    ensures And(x, mask) == (x / Pow2(k) % Pow2(w)) * Pow2(k)
  {
    AndShl(x, Mask(w), k);
    ShrIsQuotient(x, k);
    AndMaskIsLow(Shr(x, k), w);
    ShrIsQuotient(Shr(x, k), w);
    ShlIsProduct(Low(Shr(x, k), w), k);
  }
}
