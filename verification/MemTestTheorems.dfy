/**
 * Which faults the RAM tests see. Every verdict is exact: a test passes if and only if the stated
 * condition on the fault holds, for every range and every fault of the kind.
 */
module MemTestTheorems {
  import opened Words
  import opened FaultyMemory
  import opened MemTestSpec

  // ----- Faulty decoders -----

  /** The data path of the range is sound; the decoder may be anything. */
  ghost predicate Transparent(f: Fault, base: nat, n: nat) {
    forall w: nat, v: Word :: base <= w < base + n ==> f.distort(w, v) == v
  }

  ghost predicate ConstantOnAliases(f: Fault, p: Pattern, base: nat, n: nat) {
    forall j, k :: 0 <= j < n && 0 <= k < n && Aliased(f, base, j, k) ==> p.At(base, j) == p.At(base, k)
  }

  lemma {:induction false} AliasesShareLastWriter(f: Fault, base: nat, n: nat, j: nat, k: nat)
    requires j < n && k < n && Aliased(f, base, j, k)
    ensures LastWriter(f, base, n, j) == LastWriter(f, base, n, k)
  {
    if j < n - 1 && k < n - 1 {
      AliasesShareLastWriter(f, base, n - 1, j, k);
    }
  }

  /** Word k is written last by a word with the same pattern. */
  predicate WriterAgrees(f: Fault, p: Pattern, base: nat, n: nat, k: nat)
    requires k < n
  {
    p.At(base, LastWriter(f, base, n, k)) == p.At(base, k)
  }

  lemma ConstantIffWritersAgree(f: Fault, p: Pattern, base: nat, n: nat)
    ensures ConstantOnAliases(f, p, base, n) <==> forall k :: 0 <= k < n ==> WriterAgrees(f, p, base, n, k)
  {
    if ConstantOnAliases(f, p, base, n) {
      forall k | 0 <= k < n
        ensures WriterAgrees(f, p, base, n, k)
      {
        LastWriterIsLast(f, base, n, k);
      }
    }
    if forall k :: 0 <= k < n ==> WriterAgrees(f, p, base, n, k) {
      forall j, k | 0 <= j < n && 0 <= k < n && Aliased(f, base, j, k)
        ensures p.At(base, j) == p.At(base, k)
      {
        AliasesShareLastWriter(f, base, n, j, k);
        assert WriterAgrees(f, p, base, n, j) && WriterAgrees(f, p, base, n, k);
      }
    }
  }

  /** If reading changes no word of a pattern, a test passes as if the data path were sound. */
  lemma HarmlessDistortion(f: Fault, p: Pattern, base: nat, n: nat)
    requires forall w: nat, j :: base <= w < base + n && 0 <= j < n ==> f.distort(w, p.At(base, j)) == p.At(base, j)
    ensures Passes(f, p, base, n) <==> ConstantOnAliases(f, p, base, n)
  {
    ConstantIffWritersAgree(f, p, base, n);
    forall k | 0 <= k < n
      ensures Matches(f, p, base, n, k) <==> WriterAgrees(f, p, base, n, k)
    {
    }
  }

  /** A test sees an alias exactly when its pattern tells the two words apart. */
  lemma DecoderVerdict(f: Fault, p: Pattern, base: nat, n: nat)
    requires Transparent(f, base, n)
    ensures Passes(f, p, base, n) <==> ConstantOnAliases(f, p, base, n)
  {
    HarmlessDistortion(f, p, base, n);
  }

  ghost predicate AliasesAgreeMod(f: Fault, base: nat, n: nat, m: nat)
    requires m > 0
  {
    forall j, k :: 0 <= j < n && 0 <= k < n && Aliased(f, base, j, k) ==> j % m == k % m
  }

  lemma AddressesDiffer(f: Fault, base: nat, n: nat)
    requires 4 * (base + n) <= 0x1_0000_0000
    ensures ConstantOnAliases(f, Address, base, n) <==> Injective(f, base, n)
    ensures ConstantOnAliases(f, InverseAddress, base, n) <==> Injective(f, base, n)
  {
  }

  lemma AddressVerdict(f: Fault, base: nat, n: nat)
    requires Transparent(f, base, n) && 4 * (base + n) <= 0x1_0000_0000
    ensures Passes(f, Address, base, n) <==> Injective(f, base, n)
    ensures Passes(f, InverseAddress, base, n) <==> Injective(f, base, n)
  {
    DecoderVerdict(f, Address, base, n);
    DecoderVerdict(f, InverseAddress, base, n);
    AddressesDiffer(f, base, n);
  }

  lemma SameWalkingBit(i: nat, j: nat)
    requires i < 32 && j < 32
    ensures ShiftedOne(i) == ShiftedOne(j) <==> i == j
  {
    if i < j {
      Pow2Increasing(i, j);
    } else if j < i {
      Pow2Increasing(j, i);
    }
  }

  lemma WalkingBitsDiffer(f: Fault, base: nat, n: nat)
    ensures ConstantOnAliases(f, WalkingOne, base, n) <==> AliasesAgreeMod(f, base, n, 32)
    ensures ConstantOnAliases(f, WalkingZero, base, n) <==> AliasesAgreeMod(f, base, n, 32)
  {
    forall j, k | 0 <= j < n && 0 <= k < n
      ensures WalkingOne.At(base, j) == WalkingOne.At(base, k) <==> j % 32 == k % 32
      ensures WalkingZero.At(base, j) == WalkingZero.At(base, k) <==> j % 32 == k % 32
    {
      SameWalkingBit(j % 32, k % 32);
    }
  }

  lemma WalkingVerdict(f: Fault, base: nat, n: nat)
    requires Transparent(f, base, n)
    ensures Passes(f, WalkingOne, base, n) <==> AliasesAgreeMod(f, base, n, 32)
    ensures Passes(f, WalkingZero, base, n) <==> AliasesAgreeMod(f, base, n, 32)
  {
    DecoderVerdict(f, WalkingOne, base, n);
    DecoderVerdict(f, WalkingZero, base, n);
    WalkingBitsDiffer(f, base, n);
  }

  lemma AlternatingTellsParity(base: nat, n: nat)
    ensures forall j, k :: 0 <= j < n && 0 <= k < n ==>
              (Alternating.At(base, j) == Alternating.At(base, k) <==> j % 2 == k % 2)
  {
  }

  lemma AlternatingVerdict(f: Fault, base: nat, n: nat)
    requires Transparent(f, base, n)
    ensures Passes(f, Alternating, base, n) <==> AliasesAgreeMod(f, base, n, 2)
  {
    DecoderVerdict(f, Alternating, base, n);
    AlternatingTellsParity(base, n);
  }

  // ----- Stuck bits, together with a faulty decoder -----

  ghost predicate Complementary(p: Pattern, q: Pattern, base: nat, n: nat) {
    forall k: nat :: k < n ==> q.At(base, k) == Not(p.At(base, k))
  }

  lemma ForcedBit(zeros: Word, ones: Word, v: Word, b: nat)
    requires b < 32
    ensures Bit(Forced(zeros, ones, v), b) == (Bit(ones, b) || (Bit(v, b) && !Bit(zeros, b)))
  {
    WordOfBit((c: nat) => Bit(ones, c) || (Bit(v, c) && !Bit(zeros, c)), b);
  }

  lemma NothingForced(zeros: Word, ones: Word, v: Word)
    requires forall b :: 0 <= b < 32 ==> !Bit(zeros, b) && !Bit(ones, b)
    ensures Forced(zeros, ones, v) == v
  {
    forall b | 0 <= b < 32
      ensures Bit(Forced(zeros, ones, v), b) == Bit(v, b)
    {
      ForcedBit(zeros, ones, v, b);
    }
    EqualWords(Forced(zeros, ones, v), v);
  }

  /** A bit that survives both a value and its complement is not stuck. */
  lemma ComplementsExposeStuckBits(zeros: Word, ones: Word, x: Word, y: Word, b: nat)
    requires Forced(zeros, ones, x) == y && Forced(zeros, ones, Not(x)) == Not(y)
    requires b < 32
    ensures !Bit(zeros, b) && !Bit(ones, b)
  {
    ForcedBit(zeros, ones, x, b);
    ForcedBit(zeros, ones, Not(x), b);
    NotBit(x, b);
    NotBit(y, b);
  }

  lemma NoStuckBitIsTransparent(decode: nat -> nat, zeros: nat -> Word, ones: nat -> Word, base: nat, n: nat)
    requires NoStuckBit(zeros, ones, base, n)
    ensures Transparent(StuckAt(decode, zeros, ones), base, n)
  {
    forall w: nat, v: Word | base <= w < base + n
      ensures StuckAt(decode, zeros, ones).distort(w, v) == v
    {
      forall b | 0 <= b < 32
        ensures !Bit(zeros(w), b) && !Bit(ones(w), b)
      {
        assert !StuckBit(zeros, ones, base, w - base, b);
      }
      NothingForced(zeros(w), ones(w), v);
    }
  }

  lemma PassingPairHasNoStuckBit(decode: nat -> nat, zeros: nat -> Word, ones: nat -> Word,
                                 p: Pattern, q: Pattern, base: nat, n: nat)
    requires Complementary(p, q, base, n)
    requires Passes(StuckAt(decode, zeros, ones), p, base, n) && Passes(StuckAt(decode, zeros, ones), q, base, n)
    ensures NoStuckBit(zeros, ones, base, n)
  {
    var f := StuckAt(decode, zeros, ones);
    forall k, b | 0 <= k < n && 0 <= b < 32
      ensures !StuckBit(zeros, ones, base, k, b)
    {
      var x, y := p.At(base, LastWriter(f, base, n, k)), p.At(base, k);
      assert Matches(f, p, base, n, k) && Matches(f, q, base, n, k);
      ComplementsExposeStuckBits(zeros(base + k), ones(base + k), x, y, b);
    }
  }

  lemma ComplementsShareAliases(f: Fault, p: Pattern, q: Pattern, base: nat, n: nat)
    requires Complementary(p, q, base, n)
    ensures ConstantOnAliases(f, p, base, n) <==> ConstantOnAliases(f, q, base, n)
  {
    forall j, k | 0 <= j < n && 0 <= k < n
      ensures p.At(base, j) == p.At(base, k) <==> q.At(base, j) == q.At(base, k)
    {
      assert q.At(base, j) == Not(p.At(base, j)) && q.At(base, k) == Not(p.At(base, k));
    }
  }

  /** Two complementary tests pass exactly when no bit of the range is stuck and the decoder's
      aliases are invisible to the pattern, whatever the decoder and whatever the stuck bits. */
  lemma ComplementaryPairVerdict(decode: nat -> nat, zeros: nat -> Word, ones: nat -> Word,
                                 p: Pattern, q: Pattern, base: nat, n: nat)
    requires Complementary(p, q, base, n)
    ensures var f := StuckAt(decode, zeros, ones);
      Passes(f, p, base, n) && Passes(f, q, base, n)
      <==> NoStuckBit(zeros, ones, base, n) && ConstantOnAliases(f, p, base, n)
  {
    var f := StuckAt(decode, zeros, ones);
    if Passes(f, p, base, n) && Passes(f, q, base, n) {
      PassingPairHasNoStuckBit(decode, zeros, ones, p, q, base, n);
    }
    if NoStuckBit(zeros, ones, base, n) {
      NoStuckBitIsTransparent(decode, zeros, ones, base, n);
      DecoderVerdict(f, p, base, n);
      DecoderVerdict(f, q, base, n);
      ComplementsShareAliases(f, p, q, base, n);
    }
  }

  lemma WalkingPairVerdict(decode: nat -> nat, zeros: nat -> Word, ones: nat -> Word, base: nat, n: nat)
    ensures var f := StuckAt(decode, zeros, ones);
      Passes(f, WalkingOne, base, n) && Passes(f, WalkingZero, base, n)
      <==> NoStuckBit(zeros, ones, base, n) && AliasesAgreeMod(f, base, n, 32)
  {
    ComplementaryPairVerdict(decode, zeros, ones, WalkingOne, WalkingZero, base, n);
    WalkingBitsDiffer(StuckAt(decode, zeros, ones), base, n);
  }

  lemma AddressPairVerdict(decode: nat -> nat, zeros: nat -> Word, ones: nat -> Word, base: nat, n: nat)
    requires 4 * (base + n) <= 0x1_0000_0000
    ensures var f := StuckAt(decode, zeros, ones);
      Passes(f, Address, base, n) && Passes(f, InverseAddress, base, n)
      <==> NoStuckBit(zeros, ones, base, n) && Injective(f, base, n)
  {
    ComplementaryPairVerdict(decode, zeros, ones, Address, InverseAddress, base, n);
    AddressesDiffer(StuckAt(decode, zeros, ones), base, n);
  }

  // ----- Shorted data lines, together with a faulty decoder -----

  lemma MergedBit(short: Short, i: nat, j: nat, v: Word, b: nat)
    requires b < 32
    ensures Bit(Merged(short, i, j, v), b) == if b == i || b == j then Level(short, i, j, v) else Bit(v, b)
  {
    var level := Level(short, i, j, v);
    WordOfBit((c: nat) => if c == i || c == j then level else Bit(v, c), b);
  }

  lemma WalkingBit(base: nat, k: nat, b: nat)
    requires b < 32
    ensures Bit(WalkingOne.At(base, k), b) <==> b == k % 32
    ensures Bit(WalkingZero.At(base, k), b) <==> b != k % 32
  {
    Pow2Bit(k % 32, b);
    NotBit(ShiftedOne(k % 32), b);
  }

  /** Merged lines agree; a bit that walks over one of them does not. */
  lemma ShortVisible(short: Short, i: nat, j: nat, p: Pattern, base: nat, v: Word)
    requires i < j < 32 && (p.WalkingOne? || p.WalkingZero?)
    ensures Merged(short, i, j, v) != p.At(base, i)
  {
    MergedBit(short, i, j, v, i);
    MergedBit(short, i, j, v, j);
    assert Bit(Merged(short, i, j, v), i) == Bit(Merged(short, i, j, v), j);
    WalkingBit(base, i, i);
    WalkingBit(base, i, j);
    assert Bit(p.At(base, i), i) != Bit(p.At(base, i), j);
  }

  /** Lines that already agree with the merged level carry the word unchanged. */
  lemma AgreeingLines(short: Short, i: nat, j: nat, v: Word)
    requires i < j < 32 && Bit(v, i) == Bit(v, j) == Level(short, i, j, v)
    ensures Merged(short, i, j, v) == v
  {
    forall b | 0 <= b < 32
      ensures Bit(Merged(short, i, j, v), b) == Bit(v, b)
    {
      MergedBit(short, i, j, v, b);
    }
    EqualWords(Merged(short, i, j, v), v);
  }

  lemma ShortInvisible(short: Short, i: nat, j: nat, p: Pattern, base: nat, k: nat)
    requires k < i < j < 32 && (p.WalkingOne? || p.WalkingZero?)
    ensures Merged(short, i, j, p.At(base, k)) == p.At(base, k)
  {
    WalkingBit(base, k, i);
    WalkingBit(base, k, j);
    AgreeingLines(short, i, j, p.At(base, k));
  }

  /** Two shorted lines fail both walking tests as soon as the range reaches the word that walks
      over the lower line, whatever the decoder does; with a sound decoder, exactly then. */
  lemma ShortVerdict(decode: nat -> nat, short: Short, i: nat, j: nat, p: Pattern, base: nat, n: nat)
    requires i < j < 32 && (p.WalkingOne? || p.WalkingZero?)
    ensures var f := Shorted(decode, short, i, j);
      && (i < n ==> !Passes(f, p, base, n))
      && (Injective(f, base, n) ==> (Passes(f, p, base, n) <==> n <= i))
  {
    var f := Shorted(decode, short, i, j);
    if i < n {
      ShortVisible(short, i, j, p, base, p.At(base, LastWriter(f, base, n, i)));
      assert !Matches(f, p, base, n, i);
    } else if Injective(f, base, n) {
      forall k | 0 <= k < n
        ensures Matches(f, p, base, n, k)
      {
        LastWriterIsLast(f, base, n, k);
        ShortInvisible(short, i, j, p, base, k);
      }
    }
  }

  // ----- Shorted data lines under the alternating pattern -----

  /** The lowest m pairs of bits of x all have the value c. */
  predicate SamePairs(x: nat, c: nat, m: nat) {
    m == 0 || (x % 4 == c && SamePairs(x / 4, c, m - 1))
  }

  lemma NextPair(x: nat, b: nat)
    requires b >= 2
    ensures Bit(x, b) == Bit(x / 4, b - 2)
  {
    assert Bit(x, b) == Bit(x / 2, b - 1) == Bit(x / 2 / 2, b - 2);
  }

  lemma LowPair(x: nat, q: nat, c: nat)
    requires x == 4 * q + c && 1 <= c <= 2
    ensures Bit(x, 0) <==> c == 1
    ensures Bit(x, 1) <==> c == 2
  {
    if c == 1 {
      assert x == 2 * (2 * q) + 1 && x / 2 == 2 * q;
    } else {
      assert x == 2 * (2 * q + 1) && x / 2 == 2 * q + 1;
    }
    assert Bit(x, 1) == Bit(x / 2, 0);
  }

  lemma {:induction false} PairBits(x: nat, c: nat, m: nat, b: nat)
    requires SamePairs(x, c, m) && 1 <= c <= 2 && b < 2 * m
    ensures Bit(x, b) <==> ((b % 2 == 1) <==> c == 2)
  {
    LowPair(x, x / 4, c);
    if b >= 2 {
      NextPair(x, b);
      PairBits(x / 4, c, m - 1, b - 2);
    }
  }

  /** The lowest m bytes of x are 0xAA and 0x55 in turn, 0xAA first if c is 2. */
  predicate AlternatingBytes(x: nat, c: nat, m: nat)
    requires 1 <= c <= 2
  {
    m == 0 || (SamePairs(x, c, 4) && AlternatingBytes(x / 256, 3 - c, m - 1))
  }

  lemma NextByte(x: nat, b: nat)
    requires b >= 8
    ensures Bit(x, b) == Bit(x / 256, b - 8)
  {
    NextPair(x, b);
    NextPair(x / 4, b - 2);
    NextPair(x / 16, b - 4);
    NextPair(x / 64, b - 6);
  }

  /** Ones and zeros in turn, with the phase reversed from byte to byte. */
  predicate AlternatingBitSet(b: nat) {
    (b + b / 8) % 2 == 1
  }

  lemma NineMore(x: nat)
    ensures (x + 9) % 2 == 1 <==> x % 2 != 1
  {
  }

  lemma PhaseReverses(b: nat)
    ensures b < 8 ==> (AlternatingBitSet(b) <==> b % 2 == 1)
    ensures b >= 8 ==> (AlternatingBitSet(b) <==> !AlternatingBitSet(b - 8))
  {
    if b >= 8 {
      NineMore(b - 8 + (b - 8) / 8);
    }
  }

  lemma {:induction false} ByteBits(x: nat, c: nat, m: nat, b: nat)
    requires 1 <= c <= 2 && AlternatingBytes(x, c, m) && b < 8 * m
    ensures Bit(x, b) <==> (AlternatingBitSet(b) <==> c == 2)
  {
    PhaseReverses(b);
    if b < 8 {
      PairBits(x, c, 4, b);
    } else {
      NextByte(x, b);
      ByteBits(x / 256, 3 - c, m - 1, b - 8);
    }
  }

  lemma AlternatingBit(base: nat, k: nat, b: nat)
    requires b < 32
    ensures Bit(Alternating.At(base, k), b) <==> (AlternatingBitSet(b) <==> k % 2 == 0)
  {
    ByteBits(ALTERNATING_PATTERN, 2, 4, b);
    NotBit(ALTERNATING_PATTERN, b);
  }

  lemma OpposedShortVisible(short: Short, i: nat, j: nat, base: nat, v: Word, k: nat)
    requires i < j < 32 && AlternatingBitSet(i) != AlternatingBitSet(j)
    ensures Merged(short, i, j, v) != Alternating.At(base, k)
  {
    MergedBit(short, i, j, v, i);
    MergedBit(short, i, j, v, j);
    AlternatingBit(base, k, i);
    AlternatingBit(base, k, j);
  }

  lemma AgreeingShortInvisible(short: Short, i: nat, j: nat, base: nat, k: nat)
    requires i < j < 32 && AlternatingBitSet(i) == AlternatingBitSet(j)
    ensures Merged(short, i, j, Alternating.At(base, k)) == Alternating.At(base, k)
  {
    AlternatingBit(base, k, i);
    AlternatingBit(base, k, j);
    AgreeingLines(short, i, j, Alternating.At(base, k));
  }

  /** Any decoder together with two shorted data lines: the alternating test passes exactly when the
      pattern agrees on the two lines and aliased indices agree modulo 2 (or the range is empty). */
  lemma AlternatingShortVerdict(decode: nat -> nat, short: Short, i: nat, j: nat, base: nat, n: nat)
    requires i < j < 32
    ensures var f := Shorted(decode, short, i, j);
      Passes(f, Alternating, base, n)
      <==> n == 0 || ((i + i / 8) % 2 == (j + j / 8) % 2 && AliasesAgreeMod(f, base, n, 2))
  {
    var f := Shorted(decode, short, i, j);
    if n > 0 && AlternatingBitSet(i) != AlternatingBitSet(j) {
      OpposedShortVisible(short, i, j, base, Alternating.At(base, LastWriter(f, base, n, 0)), 0);
      assert !Matches(f, Alternating, base, n, 0);
    } else if n > 0 {
      forall w: nat, k | base <= w < base + n && 0 <= k < n
        ensures f.distort(w, Alternating.At(base, k)) == Alternating.At(base, k)
      {
        AgreeingShortInvisible(short, i, j, base, k);
      }
      HarmlessDistortion(f, Alternating, base, n);
      AlternatingTellsParity(base, n);
    }
  }

  // ----- Sound memory -----

  lemma SoundFetch(f: Fault, p: Pattern, base: nat, n: nat, before: Cells, after: Cells, w: nat)
    requires forall v, x: nat :: f.decode(v) == f.decode(x) ==> v == x
    requires PerfectCells(f) && Filled(f, p, base, n, before, after)
    ensures Fetch(f, after, w)
         == if base <= w < base + n then p.At(base, w - base) else Fetch(f, before, w)
  {
    if base <= w < base + n {
      assert HoldsLastWrite(f, p, base, n, w - base, after);
      LastWriterIsLast(f, base, n, w - base);
    } else {
      assert forall k :: 0 <= k < n ==> !Selects(f, base, k, f.decode(w));
      assert SameCell(f.decode(w), before, after);
    }
  }

  /** On sound memory a test of any word-aligned range passes, leaves its pattern in the range, the
      rest of the memory as it was and the result fields alone. */
  lemma SoundMemoryPasses(f: Fault, p: Pattern, start: nat, bytes: nat,
                          before: Cells, after: Cells, was: Report, now: Report, ok: bool)
    requires start % 4 == 0 && bytes % 4 == 0
    requires Judged(f, p, start / 4, bytes / 4, before, after, was, now, ok)
    requires forall w: nat, x: nat :: f.decode(w) == f.decode(x) ==> w == x
    requires PerfectCells(f)
    ensures ok && now == was
    ensures forall w: nat :: Fetch(f, after, w)
              == if start / 4 <= w < start / 4 + bytes / 4 then p.At(start / 4, w - start / 4)
                 else Fetch(f, before, w)
  {
    var base, n := start / 4, bytes / 4;
    DecoderVerdict(f, p, base, n);
    assert Injective(f, base, n);
    forall w: nat
      ensures Fetch(f, after, w)
           == if base <= w < base + n then p.At(base, w - base) else Fetch(f, before, w)
    {
      SoundFetch(f, p, base, n, before, after, w);
    }
  }
}
