/**
 * The seeded RAM test: which aliases it sees, exactly, for every increment and every range.
 */
module SeededTheorems {
  import opened Words
  import opened Multiples
  import opened FaultyMemory
  import opened MemTestSpec
  import opened MemTestTheorems

  // ----- The pattern modulo 2^32 -----

  lemma ModAbsorbs(x: int, y: int)
    ensures (x % 0x1_0000_0000 + y) % 0x1_0000_0000 == (x + y) % 0x1_0000_0000
  {
  }

  lemma CongruentIffDifferenceVanishes(x: int, y: int)
    ensures x % 0x1_0000_0000 == y % 0x1_0000_0000 <==> (x - y) % 0x1_0000_0000 == 0
  {
  }

  lemma VanishesIffMultiple(x: int, q: int)
    ensures x == q * 0x1_0000_0000 ==> x % 0x1_0000_0000 == 0
    ensures x % 0x1_0000_0000 == 0 ==> x == x / 0x1_0000_0000 * 0x1_0000_0000
  {
  }

  /** One addition of the loop, on the unreduced sum x and its successor y. */
  lemma SumStep(sum: Word, incr: Word, x: int, y: int)
    requires sum == x % 0x1_0000_0000 && y == x + incr
    ensures (sum + incr) % 0x1_0000_0000 == y % 0x1_0000_0000
  {
    ModAbsorbs(x, incr);
  }

  lemma {:induction false} SumIsLinear(seed: Word, incr: Word, k: nat, product: int)
    requires product == k * incr
    ensures Sum(seed, incr, k) == (seed + product) % 0x1_0000_0000
  {
    if k > 0 {
      var before := (k - 1) * incr;
      SumIsLinear(seed, incr, k - 1, before);
      Distributes(k - 1, 1, incr);
      SumStep(Sum(seed, incr, k - 1), incr, seed + before, seed + product);
    }
  }

  /** Words j and k of the seeded pattern are equal. */
  predicate SeedBlind(incr: Word, j: nat, k: nat) {
    ((j - k) * incr) % 0x1_0000_0000 == 0
  }

  lemma SeededWordsEqual(seed: Word, incr: Word, j: nat, k: nat)
    ensures Sum(seed, incr, j) == Sum(seed, incr, k) <==> SeedBlind(incr, j, k)
  {
    var x, y := j * incr, k * incr;
    SumIsLinear(seed, incr, j, x);
    SumIsLinear(seed, incr, k, y);
    CongruentIffDifferenceVanishes(seed + x, seed + y);
    Distributes(j - k, k, incr);
  }

  lemma SeededVerdict(f: Fault, seed: Word, incr: Word, base: nat, n: nat)
    requires Transparent(f, base, n)
    ensures Passes(f, Seeded(seed, incr), base, n)
       <==> forall j, k :: 0 <= j < n && 0 <= k < n && Aliased(f, base, j, k) ==> SeedBlind(incr, j, k)
  {
    var p := Seeded(seed, incr);
    DecoderVerdict(f, p, base, n);
    forall j, k | 0 <= j < n && 0 <= k < n
      ensures p.At(base, j) == p.At(base, k) <==> SeedBlind(incr, j, k)
    {
      SeededWordsEqual(seed, incr, j, k);
    }
  }

  // ----- How many words an increment can tell apart -----

  /** The greatest common divisor of incr and 2^32. */
  function Grain(incr: Word): nat {
    if incr == 0 then 0x1_0000_0000 else TwoPart(incr)
  }

  /** The increment as a power of two times an odd number (or 0), and the number of words after
      which its pattern repeats. */
  lemma GrainSplits(incr: Word) returns (a: nat, odd: nat, period: nat)
    ensures Grain(incr) == Pow2(a) && incr == Pow2(a) * odd
    ensures period > 0 && 0x1_0000_0000 == Pow2(a) * period
    ensures period > 1 ==> odd % 2 == 1 && a <= 32 && period == Pow2(32 - a)
  {
    Pow2At32();
    if incr == 0 {
      a, odd, period := 32, 0, 1;
    } else {
      a, odd := TwoPartSplits(incr);
      if a > 32 {
        Pow2Increasing(32, a);
      }
      period := Pow2(32 - a);
      Pow2Splits(a, 32);
    }
  }

  lemma GrainDivides(incr: Word, d: nat)
    requires d > 0 && Divides(d, Grain(incr))
    ensures Divides(d, incr) && Divides(d, 0x1_0000_0000)
  {
    var a, odd, period := GrainSplits(incr);
    DividesProduct(d, Grain(incr), odd, incr);
    DividesProduct(d, Grain(incr), period, 0x1_0000_0000);
  }

  lemma DividesGrain(incr: Word, d: nat)
    requires d > 0 && Divides(d, incr) && Divides(d, 0x1_0000_0000)
    ensures Divides(d, Grain(incr))
  {
    if incr > 0 {
      var u := DividedIsMultiple(d, incr);
      var v := DividedIsMultiple(d, 0x1_0000_0000);
      Pow2At32();
      var w := CommonDivisor(d, incr, u, 32, v);
      MultipleIsDivided(d, w, Grain(incr));
    }
  }

  /** The common divisors of incr and 2^32 are exactly the divisors of the grain. */
  lemma GrainIsGcd(incr: Word, d: nat)
    requires d > 0
    ensures Divides(d, Grain(incr)) <==> Divides(d, incr) && Divides(d, 0x1_0000_0000)
  {
    if Divides(d, Grain(incr)) {
      GrainDivides(incr, d);
    }
    if Divides(d, incr) && Divides(d, 0x1_0000_0000) {
      DividesGrain(incr, d);
    }
  }

  lemma SeedSeparates(incr: Word, a: nat, odd: nat, j: nat, k: nat)
    requires a <= 32 && odd % 2 == 1 && incr == Pow2(a) * odd
    requires j < k && k - j < Pow2(32 - a)
    ensures !SeedBlind(incr, j, k)
  {
    var product := (j - k) * incr;
    var q := product / 0x1_0000_0000;
    Pow2At32();
    Pow2Splits(a, 32);
    OddMultipleSurvives(32 - a, Pow2(a), j - k, odd, q, incr, 0x1_0000_0000);
    VanishesIffMultiple(product, q);
  }

  lemma SeedBlindIsSymmetric(incr: Word, j: nat, k: nat)
    ensures SeedBlind(incr, j, k) <==> SeedBlind(incr, k, j)
  {
    Distributes(j - k, k - j, incr);
    CongruentIffDifferenceVanishes(0, (j - k) * incr);
  }

  lemma WithinPeriod(n: nat, grain: int, period: int)
    requires grain > 0 && 0x1_0000_0000 == grain * period
    ensures n * grain <= 0x1_0000_0000 <==> n <= period
  {
    ScalingKeepsOrder(grain, period, n);
  }

  /** Within one period no two words are equal. */
  lemma SeedBlindIffSame(incr: Word, n: nat, j: nat, k: nat)
    requires n * Grain(incr) <= 0x1_0000_0000 && j < n && k < n
    ensures SeedBlind(incr, j, k) <==> j == k
  {
    var a, odd, period := GrainSplits(incr);
    WithinPeriod(n, Pow2(a), period);
    if j < k {
      SeedSeparates(incr, a, odd, j, k);
    } else if k < j {
      SeedSeparates(incr, a, odd, k, j);
      SeedBlindIsSymmetric(incr, j, k);
    } else {
      assert (j - k) * incr == 0;
    }
  }

  /** An address decoder that repeats from `base` on after `period` words. */
  function Folded(base: nat, period: nat): Fault
    requires period > 0
  {
    Fault((w: nat) => if w < base then w else base + (w - base) % period, (w: nat, v: Word) => v)
  }

  lemma FoldedAliases(base: nat, period: nat, j: nat, k: nat)
    requires period > 0
    ensures Aliased(Folded(base, period), base, j, k) <==> j % period == k % period
  {
  }

  lemma SameRemainder(j: nat, k: nat, period: nat) returns (t: int)
    requires period > 0 && j % period == k % period
    ensures j - k == t * period
  {
    t := j / period - k / period;
    assert j == j / period * period + j % period;
    assert k == k / period * period + k % period;
    Distributes(t, k / period, period);
  }

  lemma PeriodRemainder(period: nat)
    requires period > 0
    ensures period % period == 0 % period
  {
  }

  /** Beyond one period the test cannot see this decoder. */
  lemma SeededBlindSpot(seed: Word, incr: Word, base: nat, n: nat) returns (period: nat)
    requires n * Grain(incr) > 0x1_0000_0000
    ensures period > 0 && Grain(incr) * period == 0x1_0000_0000
    ensures Transparent(Folded(base, period), base, n)
    ensures Passes(Folded(base, period), Seeded(seed, incr), base, n)
    ensures !Injective(Folded(base, period), base, n)
  {
    var a, odd;
    a, odd, period := GrainSplits(incr);
    WithinPeriod(n, Pow2(a), period);
    var f := Folded(base, period);
    SeededVerdict(f, seed, incr, base, n);
    forall j, k | 0 <= j < n && 0 <= k < n && Aliased(f, base, j, k)
      ensures SeedBlind(incr, j, k)
    {
      FoldedAliases(base, period, j, k);
      var t := SameRemainder(j, k, period);
      MultiplesCombine(j - k, t, period, Pow2(a), odd, incr, 0x1_0000_0000);
      VanishesIffMultiple((j - k) * incr, t * odd);
    }
    PeriodRemainder(period);
    FoldedAliases(base, period, 0, period);
  }

  lemma SeededSeesAliases(f: Fault, seed: Word, incr: Word, base: nat, n: nat)
    requires Transparent(f, base, n) && n * Grain(incr) <= 0x1_0000_0000
    ensures Passes(f, Seeded(seed, incr), base, n) <==> Injective(f, base, n)
  {
    SeededVerdict(f, seed, incr, base, n);
    forall j, k | 0 <= j < n && 0 <= k < n
      ensures SeedBlind(incr, j, k) <==> j == k
    {
      SeedBlindIffSame(incr, n, j, k);
    }
  }

  /** The test sees every alias that any decoder can cause among n words exactly when n times the
      greatest common divisor of incr and 2^32 is at most 2^32. */
  lemma SeededSeesAllIff(seed: Word, incr: Word, base: nat, n: nat)
    ensures (forall f: Fault :: Transparent(f, base, n) ==>
               (Passes(f, Seeded(seed, incr), base, n) <==> Injective(f, base, n)))
       <==> n * Grain(incr) <= 0x1_0000_0000
  {
    if n * Grain(incr) <= 0x1_0000_0000 {
      forall f: Fault | Transparent(f, base, n)
        ensures Passes(f, Seeded(seed, incr), base, n) <==> Injective(f, base, n)
      {
        SeededSeesAliases(f, seed, incr, base, n);
      }
    } else {
      var period := SeededBlindSpot(seed, incr, base, n);
    }
  }

  /** No addressable range has more words. */
  const MAX_WORDS: nat := 0x4000_0000

  lemma SmallGrain(incr: Word)
    requires incr % 8 != 0
    ensures Grain(incr) <= 4
  {
    if incr % 2 == 0 {
      assert TwoPart(incr) == 2 * TwoPart(incr / 2);
      if incr % 4 == 0 {
        assert TwoPart(incr / 2) == 2 * TwoPart(incr / 4);
      }
    }
  }

  lemma FourTimesFits(n: nat, grain: int)
    requires n <= MAX_WORDS && grain <= 4
    ensures n * grain <= 0x1_0000_0000
  {
    assert n * grain <= n * 4;
  }

  /** In particular, every addressable range is covered unless the increment is a multiple of 8. */
  lemma SeededSeesEveryAlias(f: Fault, seed: Word, incr: Word, base: nat, n: nat)
    requires Transparent(f, base, n) && n <= MAX_WORDS && incr % 8 != 0
    ensures Passes(f, Seeded(seed, incr), base, n) <==> Injective(f, base, n)
  {
    SmallGrain(incr);
    FourTimesFits(n, Grain(incr));
    SeededSeesAliases(f, seed, incr, base, n);
  }
}
