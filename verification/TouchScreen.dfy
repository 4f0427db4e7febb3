/**
 * The touch-screen filter of board.c, in the integer widths of the source.
 */
module TouchScreen {
  import opened Words

  type Uint8 = x: int | 0 <= x < 0x100
  type Uint16 = x: int | 0 <= x < 0x1_0000
  type Int16 = x: int | -0x8000 <= x < 0x8000

  // ----- Sampling -----

  /** The two bytes of each reply the controller will send. */
  type Replies = nat -> (Uint8, Uint8)

  /** readWriteTSC2046: the 12-bit conversion result in a reply. */
  function Sample(replies: Replies, k: nat): Uint16 {
    (replies(k).0 * 256 + replies(k).1) / 8 % 0x1000
  }

  /** The sample is bits 3 to 14 of the two bytes, the high one first. */
  lemma SampleBits(replies: Replies, k: nat, b: nat)
    requires b < 12
    ensures Bit(Sample(replies, k), b) == Bit(replies(k).0 * 256 + replies(k).1, b + 3)
  {
    var x: nat := replies(k).0 * 256 + replies(k).1;
    ShrIsQuotient(x, 3);
    ShrIsQuotient(Shr(x, 3), 12);
    assert Sample(replies, k) == Low(Shr(x, 3), 12);
    LowBit(Shr(x, 3), 12, b);
    ShrBit(x, 3, b);
  }

  // ----- Series of samples -----

  /** Sample k of the series that starts at `first`. */
  function Nth(replies: Replies, first: nat, k: nat): Uint16 {
    Sample(replies, first + k)
  }

  /** Sample k of a series is within the permitted variance of the one before. */
  predicate Step(replies: Replies, first: nat, k: nat) {
    k == 0 || -0x50 <= Nth(replies, first, k) - Nth(replies, first, k - 1) <= 0x50
  }

  predicate SteadyUpTo(replies: Replies, first: nat, n: nat) {
    n == 0 || (Step(replies, first, n - 1) && SteadyUpTo(replies, first, n - 1))
  }

  function Sum(replies: Replies, first: nat, n: nat): nat {
    if n == 0 then 0 else Sum(replies, first, n - 1) + Nth(replies, first, n - 1)
  }

  /** No two successive samples of n are more than 80 apart, in either direction. */
  predicate Within80(replies: Replies, first: nat, n: nat) {
    forall k {:trigger Nth(replies, first, k)} :: 0 < k < n ==>
      -80 <= Nth(replies, first, k) - Nth(replies, first, k - 1) <= 80
  }

  lemma {:induction false} SteadyIff(replies: Replies, first: nat, n: nat)
    ensures SteadyUpTo(replies, first, n) <==> Within80(replies, first, n)
  {
    if n > 0 {
      SteadyIff(replies, first, n - 1);
    }
  }

  lemma {:induction false} NotSteady(replies: Replies, first: nat, k: nat, n: nat)
    requires k < n && !Step(replies, first, k)
    ensures !SteadyUpTo(replies, first, n)
  {
    if k < n - 1 {
      NotSteady(replies, first, k, n - 1);
    }
  }

  // ----- The filter -----

  class TouchController {
    const replies: Replies
    var next: nat

    constructor (replies: Replies)
      ensures this.replies == replies && next == 0
    {
      this.replies := replies;
      next := 0;
    }

    method ReadWrite() returns (data: Uint16)
      modifies this
      ensures data == Sample(replies, old(next)) && next == old(next) + 1
      ensures data == (replies(old(next)).0 * 256 + replies(old(next)).1) / 8 % 0x1000
    {
      data := Sample(replies, next);
      next := next + 1;
    }

    /** evalTSC2046Coord; `ok` stands for SUCCESS. All arithmetic stays inside its types. */
    method EvalCoord() returns (ok: bool, coord: Uint16)
      modifies this
      ensures ok <==> SteadyUpTo(replies, old(next), 10)
      ensures ok <==> Within80(replies, old(next), 10)
      ensures ok ==> coord == Sum(replies, old(next), 10) / 10 <= 0xFFF && next == old(next) + 10
      ensures !ok ==> exists k :: 0 < k < 10 && next == old(next) + k + 1 && coord == Sum(replies, old(next), k)
                        && SteadyUpTo(replies, old(next), k) && !Step(replies, old(next), k)
    {
      var tmp: Uint16 := 0;
      var diff: Int16 := 0;
      coord := 0;
      ghost var first := next;
      SteadyIff(replies, first, 10);
      var i := 0;
      while i < 10
        invariant 0 <= i <= 10 && next == first + i
        invariant coord == Sum(replies, first, i) <= 0xFFF * i
        invariant SteadyUpTo(replies, first, i)
        invariant i > 0 ==> tmp == Nth(replies, first, i - 1)
        invariant 0 <= diff <= 0x50
      {
        var previous := tmp;
        tmp := ReadWrite();
        if tmp > 0xFFF {
          return false, coord;
        }
        if i > 0 {
          diff := tmp - previous;
        }
        if diff < 0 {
          diff := 0 - diff;
        }
        if diff > 0x50 {
          NotSteady(replies, first, i, 10);
          return false, coord;
        }
        coord := coord + tmp;
        i := i + 1;
      }
      coord := coord / 10;
      return true, coord;
    }
  }

  // ----- What a successful evaluation says about the samples -----

  /** Samples of a steady series that are m apart differ by at most 80 * m. */
  lemma {:induction false} SteadySamplesAreClose(replies: Replies, first: nat, n: nat, j: nat, k: nat)
    requires SteadyUpTo(replies, first, n) && j <= k < n
    ensures -80 * (k - j) <= Nth(replies, first, k) - Nth(replies, first, j) <= 80 * (k - j)
  {
    if j < k {
      if k < n - 1 {
        SteadySamplesAreClose(replies, first, n - 1, j, k);
      } else {
        SteadySamplesAreClose(replies, first, n - 1, j, k - 1);
      }
    }
  }

  lemma SumOfTen(replies: Replies, first: nat)
    ensures Sum(replies, first, 10)
         == Nth(replies, first, 0) + Nth(replies, first, 1) + Nth(replies, first, 2) + Nth(replies, first, 3)
          + Nth(replies, first, 4) + Nth(replies, first, 5) + Nth(replies, first, 6) + Nth(replies, first, 7)
          + Nth(replies, first, 8) + Nth(replies, first, 9)
  {
    forall k: nat | k < 10
      ensures Sum(replies, first, k + 1) == Sum(replies, first, k) + Nth(replies, first, k)
    {
    }
  }

  /** The result lies within any bounds that hold all ten samples. */
  lemma AverageBetween(replies: Replies, first: nat, low: int, high: int)
    requires forall k :: 0 <= k < 10 ==> low <= Nth(replies, first, k) <= high
    ensures low <= Sum(replies, first, 10) / 10 <= high
  {
    SumOfTen(replies, first);
  }

  /** Samples j and k of ten steady samples lie within 720 counts of each other. */
  lemma SteadySpread(replies: Replies, first: nat, j: nat, k: nat)
    requires SteadyUpTo(replies, first, 10) && j < 10 && k < 10
    ensures -720 <= Nth(replies, first, j) - Nth(replies, first, k) <= 720
  {
    if j <= k {
      SteadySamplesAreClose(replies, first, 10, j, k);
    } else {
      SteadySamplesAreClose(replies, first, 10, k, j);
    }
  }

  /** The result of ten steady samples is within 360 counts of the first and of the last of them. */
  lemma ResultNearFirst(replies: Replies, first: nat)
    requires SteadyUpTo(replies, first, 10)
    ensures -360 <= Sum(replies, first, 10) / 10 - Nth(replies, first, 0) <= 360
  {
    forall k: nat | k < 10
      ensures -80 * k <= Nth(replies, first, k) - Nth(replies, first, 0) <= 80 * k
    {
      SteadySamplesAreClose(replies, first, 10, 0, k);
    }
    SumOfTen(replies, first);
  }

  lemma ResultNearLast(replies: Replies, first: nat)
    requires SteadyUpTo(replies, first, 10)
    ensures -360 <= Sum(replies, first, 10) / 10 - Nth(replies, first, 9) <= 360
  {
    forall k: nat | k < 10
      ensures -80 * (9 - k) <= Nth(replies, first, 9) - Nth(replies, first, k) <= 80 * (9 - k)
    {
      SteadySamplesAreClose(replies, first, 10, k, 9);
    }
    SumOfTen(replies, first);
  }

  /** A ramp of 80 counts a sample meets the bounds. */
  function Ramp(): Replies {
    (k: nat) => if k < 10 then (640 * k / 256, 640 * k % 256) else (0, 0)
  }

  lemma RampSample(k: nat)
    requires k < 10
    ensures Nth(Ramp(), 0, k) == 80 * k
  {
  }

  lemma RampStep(k: nat)
    requires k < 10
    ensures Step(Ramp(), 0, k)
  {
    RampSample(k);
    if k > 0 {
      RampSample(k - 1);
    }
  }

  lemma {:induction false} SteadyByNth(replies: Replies, first: nat, n: nat)
    requires forall k :: 0 < k < n ==> Step(replies, first, k)
    ensures SteadyUpTo(replies, first, n)
  {
    if n > 0 {
      SteadyByNth(replies, first, n - 1);
      assert n > 1 ==> Step(replies, first, n - 1);
    }
  }

  lemma BoundsAreTight()
    ensures SteadyUpTo(Ramp(), 0, 10)
    ensures Nth(Ramp(), 0, 9) - Nth(Ramp(), 0, 0) == 720
    ensures Sum(Ramp(), 0, 10) / 10 - Nth(Ramp(), 0, 0) == 360 == Nth(Ramp(), 0, 9) - Sum(Ramp(), 0, 10) / 10
  {
    forall k: nat | k < 10
      ensures Nth(Ramp(), 0, k) == 80 * k && Step(Ramp(), 0, k)
    {
      RampSample(k);
      RampStep(k);
    }
    SumOfTen(Ramp(), 0);
    SteadyByNth(Ramp(), 0, 10);
  }
}
