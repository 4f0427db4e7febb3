/**
 * The touch-screen calibration of board.c, in the integer widths of the source.
 */
module TouchCalibration {
  type Int16 = x: int | -0x8000 <= x < 0x8000
  type Int32 = x: int | -0x8000_0000 <= x < 0x8000_0000

  // ----- Scaling integers -----

  lemma ScaleMonotone(a: int, b: int, size: int)
    requires a <= b && size >= 0
    ensures a * size <= b * size
  {
  }

  lemma ScaleLess(a: int, b: int, d: int)
    requires d > 0
    ensures a < b <==> a * d < b * d
  {
    var e := b - a;
    assert b * d == a * d + e * d;
    if e > 0 {
      assert e * d >= d;
    } else {
      assert e * d <= 0;
    }
  }

  lemma FloorBounds(x: int, d: int)
    requires d > 0
    ensures x / d * d <= x < (x / d + 1) * d
  {
    assert (x / d + 1) * d == x / d * d + d;
  }

  lemma FloorLess(m: int, d: int, bound: int)
    requires d > 0
    ensures m / d < bound <==> m < bound * d
  {
    FloorBounds(m, d);
    ScaleLess(m / d, bound, d);
    ScaleLess(bound, m / d + 1, d);
  }

  lemma Negated(m: int, d: int)
    ensures (-m) * d == -(m * d)
  {
  }

  lemma ExactQuotient(r: int, d: int, q: int)
    requires d > 0 && r * d <= d * q < (r + 1) * d
    ensures r == q
  {
    ScaleLess(q, r + 1, d);
    ScaleLess(q, r, d);
  }

  lemma ScaledOrder(a: int, a': int, size: int, d: int, r: int, r': int)
    requires a <= a' && size >= 0 && d > 0
    requires r * d <= a * size && a' * size < (r' + 1) * d
    ensures r <= r'
  {
    ScaleMonotone(a, a', size);
    ScaleLess(r, r' + 1, d);
  }

  lemma MagnitudeFits(a: nat, b: nat)
    requires a <= 0xFFFF && b <= 0x8000
    ensures a * b < 0x8000_0000
  {
    assert a * b <= 0xFFFF * b;
  }

  lemma ProductFits(a: int, b: int)
    requires -0xFFFF <= a <= 0xFFFF && -0x8000 <= b < 0x8000
    ensures -0x8000_0000 <= a * b < 0x8000_0000
  {
    MagnitudeFits(if a < 0 then -a else a, if b < 0 then -b else b);
  }

  // ----- The calibration -----

  /** C's division: towards zero. */
  function Quotient(a: int, b: int): int
    requires b > 0
  {
    if a >= 0 then a / b else -((-a) / b)
  }

  /** Conversion of an int to int16_t. */
  function Narrow(x: int): Int16 {
    (x + 0x8000) % 0x1_0000 - 0x8000
  }

  /** calibrateTSC2046. Equal limits would divide by zero. The product is an Int32: it cannot
      overflow, whatever the arguments. */
  function Calibrate(coord: Int16, minVal: Int16, maxVal: Int16, trueSize: Int16): Int16
    requires minVal != maxVal
  {
    var low: int := if minVal > maxVal then maxVal else minVal;
    var high: int := if minVal > maxVal then minVal else maxVal;
    ProductFits(coord - low, trueSize);
    var product: Int32 := (coord - low) * trueSize;
    var ret := Narrow(Quotient(product, high - low));
    if minVal > maxVal then Narrow(trueSize - ret) else ret
  }

  lemma SmallStaysNarrow(x: int)
    requires -0x8000 <= x < 0x8000
    ensures Narrow(x) == x
  {
  }

  // ----- Coordinates between the limits -----

  lemma ShareOfSize(a: int, d: int, size: int, x: int)
    requires 0 <= a <= d && d > 0 && size >= 0 && x == a * size
    ensures 0 <= x && 0 <= x / d <= size && x / d * d <= x < (x / d + 1) * d
  {
    FloorBounds(x, d);
    ScaleMonotone(0, a, size);
    ScaleMonotone(a, d, size);
    ScaleLess(0, x / d + 1, d);
    ScaleLess(x / d, size + 1, d);
  }

  /** For a coordinate between the limits, the result is the true size scaled by the coordinate's
      share of the range, rounded down. */
  lemma CalibrateScales(coord: Int16, minVal: Int16, maxVal: Int16, trueSize: Int16)
    requires minVal < maxVal && minVal <= coord <= maxVal && trueSize >= 0
    ensures var r := Calibrate(coord, minVal, maxVal, trueSize);
      && 0 <= r <= trueSize
      && r * (maxVal - minVal) <= (coord - minVal) * trueSize < (r + 1) * (maxVal - minVal)
  {
    var d, x := maxVal - minVal, (coord - minVal) * trueSize;
    ShareOfSize(coord - minVal, d, trueSize, x);
    SmallStaysNarrow(x / d);
  }

  /** Swapping the limits mirrors the result in 16-bit arithmetic, for all arguments. */
  lemma SwapMirrors(coord: Int16, minVal: Int16, maxVal: Int16, trueSize: Int16)
    requires minVal < maxVal
    ensures Calibrate(coord, maxVal, minVal, trueSize) == Narrow(trueSize - Calibrate(coord, minVal, maxVal, trueSize))
  {
  }

  /** Between the limits the mirror is exact. */
  lemma SwapMirrorsExactly(coord: Int16, minVal: Int16, maxVal: Int16, trueSize: Int16)
    requires minVal < maxVal && minVal <= coord <= maxVal && trueSize >= 0
    ensures Calibrate(coord, maxVal, minVal, trueSize) == trueSize - Calibrate(coord, minVal, maxVal, trueSize)
  {
    CalibrateScales(coord, minVal, maxVal, trueSize);
    SwapMirrors(coord, minVal, maxVal, trueSize);
    SmallStaysNarrow(trueSize - Calibrate(coord, minVal, maxVal, trueSize));
  }

  lemma EndpointsInOrder(low: Int16, high: Int16, trueSize: Int16)
    requires low < high && trueSize >= 0
    ensures Calibrate(low, low, high, trueSize) == 0 && Calibrate(high, low, high, trueSize) == trueSize
  {
    CalibrateScales(low, low, high, trueSize);
    CalibrateScales(high, low, high, trueSize);
    ExactQuotient(Calibrate(low, low, high, trueSize), high - low, 0);
    ExactQuotient(Calibrate(high, low, high, trueSize), high - low, trueSize);
  }

  /** The limits themselves map to 0 and the true size, in either order. */
  lemma CalibrateEndpoints(minVal: Int16, maxVal: Int16, trueSize: Int16)
    requires minVal != maxVal && trueSize >= 0
    ensures Calibrate(minVal, minVal, maxVal, trueSize) == 0
    ensures Calibrate(maxVal, minVal, maxVal, trueSize) == trueSize
  {
    if minVal < maxVal {
      EndpointsInOrder(minVal, maxVal, trueSize);
    } else {
      EndpointsInOrder(maxVal, minVal, trueSize);
      SwapMirrorsExactly(minVal, maxVal, minVal, trueSize);
      SwapMirrorsExactly(maxVal, maxVal, minVal, trueSize);
    }
  }

  lemma MonotoneInOrder(coord: Int16, coord': Int16, low: Int16, high: Int16, trueSize: Int16)
    requires low < high && low <= coord <= coord' <= high && trueSize >= 0
    ensures 0 <= Calibrate(coord, low, high, trueSize) <= Calibrate(coord', low, high, trueSize) <= trueSize
  {
    CalibrateScales(coord, low, high, trueSize);
    CalibrateScales(coord', low, high, trueSize);
    ScaledOrder(coord - low, coord' - low, trueSize, high - low,
                Calibrate(coord, low, high, trueSize), Calibrate(coord', low, high, trueSize));
  }

  /** Between the limits the result is monotone in the coordinate, and antitone when the limits are
      swapped; either way it lies in [0, trueSize]. */
  lemma CalibrateMonotone(coord: Int16, coord': Int16, minVal: Int16, maxVal: Int16, trueSize: Int16)
    requires minVal < maxVal && minVal <= coord <= coord' <= maxVal && trueSize >= 0
    ensures 0 <= Calibrate(coord, minVal, maxVal, trueSize) <= Calibrate(coord', minVal, maxVal, trueSize) <= trueSize
    ensures 0 <= Calibrate(coord', maxVal, minVal, trueSize) <= Calibrate(coord, maxVal, minVal, trueSize) <= trueSize
  {
    MonotoneInOrder(coord, coord', minVal, maxVal, trueSize);
    SwapMirrorsExactly(coord, minVal, maxVal, trueSize);
    SwapMirrorsExactly(coord', minVal, maxVal, trueSize);
  }

  // ----- Any coordinate -----

  predicate InSize(r: int, size: int) {
    0 <= r <= size
  }

  lemma NarrowInSize(x: int, size: int)
    requires 0 <= size < 0x8000
    ensures InSize(Narrow(x), size) <==> x % 0x1_0000 <= size
  {
  }

  lemma MirrorInSize(r: Int16, size: int)
    requires 0 <= size < 0x8000
    ensures InSize(Narrow(size - r), size) <==> InSize(r, size)
  {
  }

  /** Division towards zero, by its defining inequalities. */
  lemma QuotientBounds(x: int, d: int)
    requires d > 0
    ensures x >= 0 ==> Quotient(x, d) * d <= x < (Quotient(x, d) + 1) * d
    ensures x <= 0 ==> (Quotient(x, d) - 1) * d < x <= Quotient(x, d) * d
  {
    if x >= 0 {
      FloorBounds(x, d);
    } else {
      FloorBounds(-x, d);
      Negated(-x / d, d);
      Negated(-x / d + 1, d);
    }
  }

  /** r is x modulo 2^16. */
  predicate Congruent(r: int, x: int) {
    (r - x) % 0x1_0000 == 0
  }

  lemma CongruentBy(r: int, x: int, t: int)
    requires r == x + 0x1_0000 * t
    ensures Congruent(r, x)
  {
  }

  lemma NarrowCongruent(x: int)
    ensures Congruent(Narrow(x), x)
  {
    CongruentBy(Narrow(x), x, -((x + 0x8000) / 0x1_0000));
  }

  lemma MirrorCongruent(size: int, r: int, q: int)
    requires Congruent(r, q)
    ensures Congruent(Narrow(size - r), size - q)
  {
    var t, u := (r - q) / 0x1_0000, (size - r + 0x8000) / 0x1_0000;
    CongruentBy(Narrow(size - r), size - q, -t - u);
  }

  /** The value for every coordinate, limits and size, and either order of the limits: the scaled
      offset divided by the range towards zero, or the size minus that, modulo 2^16. As the result
      is an Int16, that leaves one value. */
  lemma CalibrateTruncates(coord: Int16, minVal: Int16, maxVal: Int16, trueSize: Int16) returns (q: int)
    requires minVal < maxVal
    ensures var x, d := (coord - minVal) * trueSize, maxVal - minVal;
      && (x >= 0 ==> q * d <= x < (q + 1) * d)
      && (x <= 0 ==> (q - 1) * d < x <= q * d)
    ensures Congruent(Calibrate(coord, minVal, maxVal, trueSize), q)
    ensures Congruent(Calibrate(coord, maxVal, minVal, trueSize), trueSize - q)
  {
    q := Quotient((coord - minVal) * trueSize, maxVal - minVal);
    QuotientBounds((coord - minVal) * trueSize, maxVal - minVal);
    NarrowCongruent(q);
    MirrorCongruent(trueSize, Calibrate(coord, minVal, maxVal, trueSize), q);
    SwapMirrors(coord, minVal, maxVal, trueSize);
  }

  /** For every coordinate, limits and size, and either order of the limits: the result lies in
      [0, trueSize] exactly when C's quotient does modulo 2^16. */
  lemma InSizeIff(coord: Int16, minVal: Int16, maxVal: Int16, trueSize: Int16)
    requires minVal < maxVal && trueSize >= 0
    ensures var q := Quotient((coord - minVal) * trueSize, maxVal - minVal);
      && (InSize(Calibrate(coord, minVal, maxVal, trueSize), trueSize) <==> q % 0x1_0000 <= trueSize)
      && (InSize(Calibrate(coord, maxVal, minVal, trueSize), trueSize) <==> q % 0x1_0000 <= trueSize)
  {
    NarrowInSize(Quotient((coord - minVal) * trueSize, maxVal - minVal), trueSize);
    MirrorInSize(Calibrate(coord, minVal, maxVal, trueSize), trueSize);
    SwapMirrors(coord, minVal, maxVal, trueSize);
  }

  /** Where C's quotient lies relative to a bound. */
  lemma QuotientRange(x: int, d: int, size: int)
    requires d > 0 && size >= 0
    ensures 0 <= Quotient(x, d) <= size <==> -d < x < (size + 1) * d
    ensures -(0x8000 * d) < x < 0x8000 * d ==> -0x8000 < Quotient(x, d) < 0x8000
  {
    var m := if x >= 0 then x else -x;
    FloorLess(m, d, 1);
    FloorLess(m, d, size + 1);
    FloorLess(m, d, 0x8000);
  }

  lemma FittingRemainder(q: int, size: int)
    requires -0x8000 <= q < 0x8000 && 0 <= size < 0x8000
    ensures q % 0x1_0000 <= size <==> 0 <= q <= size
  {
  }

  lemma BoardOffset(coord: Int16, maxVal: Int16, trueSize: Int16)
    requires 0 <= coord <= 0xFFF && 149 <= maxVal <= 163 && 240 <= trueSize <= 320
    ensures -163 * 320 <= (coord - maxVal) * trueSize <= 3946 * 320
  {
    ScaleMonotone(-163, coord - maxVal, trueSize);
    ScaleMonotone(coord - maxVal, 3946, trueSize);
  }

  /** On the board, whatever 12-bit coordinate the filter delivers and with swapped axes or not, the
      quotient fits 16 bits and the result lies in [0, trueSize] exactly when the scaled offset lies
      above minus one range and below trueSize + 1 ranges: truncation lets a little of the outside
      through at both ends. The board passes the larger limit first. */
  lemma BoardCallInSizeIff(coord: Int16, minVal: Int16, maxVal: Int16, trueSize: Int16)
    requires 0 <= coord <= 0xFFF
    requires (minVal == 3914 && maxVal == 163) || (minVal == 3758 && maxVal == 149)
    requires trueSize == 240 || trueSize == 320
    ensures var x, d := (coord - maxVal) * trueSize, minVal - maxVal;
      && -0x8000 <= Quotient(x, d) < 0x8000
      && (InSize(Calibrate(coord, minVal, maxVal, trueSize), trueSize) <==> -d < x < (trueSize + 1) * d)
  {
    var x, d := (coord - maxVal) * trueSize, minVal - maxVal;
    BoardOffset(coord, maxVal, trueSize);
    QuotientRange(x, d, trueSize);
    FittingRemainder(Quotient(x, d), trueSize);
    InSizeIff(coord, maxVal, minVal, trueSize);
  }

  lemma SmallQuotient(x: int, d: int, q: int)
    requires d >= 3609 && -163 * 320 <= x <= 3946 * 320
    requires x >= 0 ==> q * d <= x < (q + 1) * d
    requires x <= 0 ==> (q - 1) * d < x <= q * d
    ensures -0x1000 < q < 0x1000
  {
    ScaleMonotone(3609, d, 0x1000);
    if x >= 0 {
      ScaleLess(q, 0x1000, d);
      ScaleLess(-1, q, d);
    } else {
      ScaleLess(q - 1, 0, d);
      ScaleLess(-0x1000, q, d);
    }
  }

  lemma SmallCongruent(r: Int16, size: int, q: int)
    requires Congruent(r, size - q) && -0x1000 < q < 0x1000 && 0 <= size <= 320
    ensures r == size - q
  {
  }

  /** On the board the value itself, inside the screen or not: the distance from the far edge is the
      scaled offset divided by the range, towards zero. */
  lemma BoardCallTruncates(coord: Int16, minVal: Int16, maxVal: Int16, trueSize: Int16)
    requires 0 <= coord <= 0xFFF
    requires (minVal == 3914 && maxVal == 163) || (minVal == 3758 && maxVal == 149)
    requires trueSize == 240 || trueSize == 320
    ensures var x, d := (coord - maxVal) * trueSize, minVal - maxVal;
      var q := trueSize - Calibrate(coord, minVal, maxVal, trueSize);
      && (x >= 0 ==> q * d <= x < (q + 1) * d)
      && (x <= 0 ==> (q - 1) * d < x <= q * d)
  {
    var q := CalibrateTruncates(coord, maxVal, minVal, trueSize);
    BoardOffset(coord, maxVal, trueSize);
    SmallQuotient((coord - maxVal) * trueSize, minVal - maxVal, q);
    SmallCongruent(Calibrate(coord, minVal, maxVal, trueSize), trueSize, q);
  }
}
