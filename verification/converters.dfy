/**
 The conversion helpers of the firmware: an integer range remap with an
 integer slope, a floored remainder, C's `fmod`, and the HSV to RGB formula
 with value fixed at 1 (the triangular-kernel form of the "HSL and HSV"
 article). Floating values are modelled as exact reals; every place where C
 converts a float to an `int` is written as `Trunc`.
 */
module Converters {
  import opened CArith

  /** `UINT16_MAX`, the top of the PWM duty range. */
  const UInt16Max := 65535

  /** Output range [0, 255] of one colour channel. */
  const ByteMax := 255

  // ---------------------------------------------------------------------------
  // map: linear range remap with an integer slope
  // ---------------------------------------------------------------------------

  /** Remaps `value` from [inLower, inUpper] to [outLower, outUpper]. The slope
      is an integer quotient taken BEFORE the multiplication, so the remap is
      exact only when the input span divides the output span. The result is
      anchored at `outLower` and, for ordered ranges and an in-range value,
      never leaves the output range. */
  function Map(value: int, inLower: int, inUpper: int, outLower: int, outUpper: int): (r: int)
    requires inLower != inUpper
    ensures value == inLower ==> r == outLower
    ensures inLower < inUpper && outLower <= outUpper && inLower <= value <= inUpper
            ==> outLower <= r <= outUpper
  {
    var slope := Div(outUpper - outLower, inUpper - inLower);
    SlopeStep(outUpper - outLower, inUpper - inLower, value - inLower);
    outLower + slope * (value - inLower)
  }

  /** A slope whose product with the input span stays within the output span
      keeps every in-range step within the output span. */
  lemma SlopeStep(outSpan: int, inSpan: int, step: int)
    requires inSpan != 0
    ensures 0 <= outSpan && 0 < inSpan && 0 <= step <= inSpan
            ==> 0 <= Div(outSpan, inSpan) * step <= outSpan
  {
    if 0 <= outSpan && 0 < inSpan && 0 <= step <= inSpan {
      var slope := outSpan / inSpan;
      NatQuotient(outSpan, inSpan);
      assert slope * inSpan <= outSpan;
      IntMulLe(step, inSpan, slope);
      IntMulLe(0, step, slope);
      assert 0 <= slope * step <= outSpan;
      assert Div(outSpan, inSpan) == slope;
    }
  }

  /** The remap computed with a true rational slope, the reference against
      which the integer-slope remap is measured. */
  function ExactMap(value: int, inLower: int, inUpper: int, outLower: int, outUpper: int): real
    requires inLower != inUpper
  {
    outLower as real
      + ((outUpper - outLower) as real / (inUpper - inLower) as real) * (value - inLower) as real
  }

  /** For ordered ranges and a value at or above the input floor, the integer
      slope never overshoots the rational remap, and it loses less than one
      output unit per input step. */
  lemma MapBelowExact(value: int, inLower: int, inUpper: int, outLower: int, outUpper: int)
    requires inLower < inUpper && outLower <= outUpper && inLower <= value
    ensures Map(value, inLower, inUpper, outLower, outUpper) as real
            <= ExactMap(value, inLower, inUpper, outLower, outUpper)
    ensures ExactMap(value, inLower, inUpper, outLower, outUpper)
            - Map(value, inLower, inUpper, outLower, outUpper) as real
            < (value - inLower) as real || value == inLower
  {
    var outSpan, inSpan, step := outUpper - outLower, inUpper - inLower, value - inLower;
    var slope := outSpan / inSpan;
    var m := Map(value, inLower, inUpper, outLower, outUpper);
    var e := ExactMap(value, inLower, inUpper, outLower, outUpper);
    var frac := SlopeFraction(outSpan, inSpan);
    var o, s, t := outLower as real, slope as real, step as real;
    assert m as real == o + s * t by {
      MapAsSlope(value, inLower, inUpper, outLower, outUpper);
      IntMulAsReal(slope, step);
    }
    assert e == o + (s + frac) * t;
    FractionLoss(o, s, frac, t, m as real, e);
  }

  /** On ordered ranges the remap is the output floor plus the Euclidean
      slope times the input step. */
  lemma MapAsSlope(value: int, inLower: int, inUpper: int, outLower: int, outUpper: int)
    requires inLower < inUpper && outLower <= outUpper
    ensures Map(value, inLower, inUpper, outLower, outUpper)
            == outLower + (outUpper - outLower) / (inUpper - inLower) * (value - inLower)
  {
    assert Div(outUpper - outLower, inUpper - inLower) == (outUpper - outLower) / (inUpper - inLower);
  }

  /** Adding a fraction in [0, 1) to a slope adds less than one unit per step:
      `m` uses the whole slope `s`, `e` the slope plus `frac`. */
  lemma FractionLoss(o: real, s: real, frac: real, t: real, m: real, e: real)
    requires 0.0 <= frac < 1.0 && 0.0 <= t
    requires m == o + s * t && e == o + (s + frac) * t
    ensures m <= e
    ensures e - m < t || t == 0.0
  {
    var extra := frac * t;
    assert (s + frac) * t == s * t + extra;
    assert e - m == extra;
    MulLe(0.0, frac, t);
    assert 0.0 * t == 0.0;
    if 0.0 < t {
      MulLt(frac, 1.0, t);
      assert 1.0 * t == t;
      assert extra < t;
    }
  }

  /** The rational slope is the integer slope plus a fraction in [0, 1). */
  lemma SlopeFraction(outSpan: int, inSpan: int) returns (frac: real)
    requires 0 <= outSpan && 0 < inSpan
    ensures 0.0 <= frac < 1.0
    ensures outSpan as real / inSpan as real == (outSpan / inSpan) as real + frac
    ensures outSpan % inSpan == 0 ==> frac == 0.0
  {
    var slope, rem := outSpan / inSpan, outSpan % inSpan;
    assert outSpan == slope * inSpan + rem;
    var o, i, s, r := outSpan as real, inSpan as real, slope as real, rem as real;
    IntMulAsReal(slope, inSpan);
    assert o == s * i + r;
    frac := r / i;
    DivMul(r, i);
    var w := s + frac;
    assert w * i == s * i + frac * i;
    assert w * i == o;
    MulDiv(w, i);
    assert o / i == w;
    DivSign(r, i);
  }

  /** When the input span divides the output span the integer slope is exact. */
  lemma MapExactWhenDivisible(value: int, inLower: int, inUpper: int, outLower: int, outUpper: int)
    requires inLower < inUpper && outLower <= outUpper
    requires (outUpper - outLower) % (inUpper - inLower) == 0
    ensures Map(value, inLower, inUpper, outLower, outUpper) as real
            == ExactMap(value, inLower, inUpper, outLower, outUpper)
  {
    var outSpan, inSpan, step := outUpper - outLower, inUpper - inLower, value - inLower;
    var slope := outSpan / inSpan;
    assert Map(value, inLower, inUpper, outLower, outUpper) == outLower + slope * step;
    var frac := SlopeFraction(outSpan, inSpan);
    assert outSpan as real / inSpan as real == slope as real;
    IntMulAsReal(slope, step);
  }

  /** 0..255 to 0..65535: the slope is exactly 257, so 0 maps to 0 and 255 to 65535. */
  lemma MapByteToDuty(x: int)
    ensures Map(x, 0, ByteMax, 0, UInt16Max) == 257 * x
    ensures x == ByteMax ==> Map(x, 0, ByteMax, 0, UInt16Max) == UInt16Max
  {
    assert Div(UInt16Max, ByteMax) == 257;
  }

  /** 0..100 to 0..65535: the slope truncates to 655, so 100 maps to 65500, not 65535. */
  lemma MapPercentToDuty(x: int)
    ensures Map(x, 0, 100, 0, UInt16Max) == 655 * x
    ensures x == 100 ==> Map(x, 0, 100, 0, UInt16Max) == 65500 < UInt16Max
  {
    assert Div(UInt16Max, 100) == 655;
  }

  /** An output span narrower than the input span truncates the slope to 0,
      and every value then maps to `outLower`. */
  lemma MapSlopeCollapse(value: int, inLower: int, inUpper: int, outLower: int, outUpper: int)
    requires inLower != inUpper
    requires Abs(outUpper - outLower) < Abs(inUpper - inLower)
    ensures Map(value, inLower, inUpper, outLower, outUpper) == outLower
  {
    assert Div(outUpper - outLower, inUpper - inLower) == 0;
  }

  /** For an increasing input range and a non-decreasing output range the
      remap is monotone in `value`. */
  lemma MapMonotone(v1: int, v2: int, inLower: int, inUpper: int, outLower: int, outUpper: int)
    requires inLower < inUpper && outLower <= outUpper
    requires v1 <= v2
    ensures Map(v1, inLower, inUpper, outLower, outUpper) <= Map(v2, inLower, inUpper, outLower, outUpper)
  {
    var slope := Div(outUpper - outLower, inUpper - inLower);
    assert 0 <= slope;
    assert slope * (v1 - inLower) <= slope * (v2 - inLower);
  }

  // ---------------------------------------------------------------------------
  // Remainders
  // ---------------------------------------------------------------------------

  /** `__ieee754_remainder`: despite its name, a FLOORED remainder
      `x - y*floor(x/y)`, so for a positive divisor it lies in [0, y) and for a
      negative one in (y, 0]. */
  function Ieee754Remainder(x: real, y: real): (r: real)
    requires y != 0.0
    ensures 0.0 < y ==> 0.0 <= r < y
    ensures y < 0.0 ==> y < r <= 0.0
    ensures IsMultiple(x - r, y)
  {
    var f := (x / y).Floor as real;
    var d := x - (x - y * f);
    assert d == y * f;
    MulDiv(f, y);
    assert d / y == f;
    FloorBounds(x, y);
    x - y * f
  }

  lemma FloorBounds(x: real, y: real)
    requires y != 0.0
    ensures 0.0 < y ==> 0.0 <= x - y * (x / y).Floor as real < y
    ensures y < 0.0 ==> y < x - y * (x / y).Floor as real <= 0.0
  {
    var q := x / y;
    var fr := q.Floor as real;
    DivMul(x, y);
    ScaleFloor(q, fr, y, x);
    assert y * fr == fr * y;
  }

  /** The floored remainder is the unique r in [0, y) with x = q*y + r. */
  lemma Ieee754RemainderUnique(x: real, y: real, q: int, r: real)
    requires 0.0 < y && 0.0 <= r < y
    requires x == q as real * y + r
    ensures Ieee754Remainder(x, y) == r
  {
    var w := q as real + r / y;
    DivMul(r, y);
    assert w * y == q as real * y + (r / y) * y;
    assert w * y == x;
    MulDiv(w, y);
    assert x / y == w;
    DivSign(r, y);
    assert (x / y).Floor == q;
  }

  /** C's `fmod` for a positive divisor: the quotient is truncated toward
      zero, so the result takes the sign of the dividend and is smaller than
      the divisor. */
  function FMod(x: real, y: real): (r: real)
    requires 0.0 < y
    ensures 0.0 <= x ==> 0.0 <= r < y
    ensures x < 0.0 ==> -y < r <= 0.0
    ensures IsMultiple(x - r, y)
  {
    var t := Trunc(x / y) as real;
    var d := x - (x - y * t);
    assert d == y * t;
    MulDiv(t, y);
    assert d / y == t;
    FModBounds(x, y);
    x - y * t
  }

  lemma FModBounds(x: real, y: real)
    requires 0.0 < y
    ensures 0.0 <= x ==> 0.0 <= x - y * Trunc(x / y) as real < y
    ensures x < 0.0 ==> -y < x - y * Trunc(x / y) as real <= 0.0
  {
    var q := x / y;
    var tr := Trunc(q) as real;
    DivMul(x, y);
    DivSign(x, y);
    assert y * tr == tr * y;
    if 0.0 <= x {
      ScaleFloor(q, tr, y, x);
    } else {
      ScaleCeil(q, tr, y, x);
    }
  }

  /** On a non-negative dividend, `fmod` and the floored remainder agree. */
  lemma FModIsRemainderWhenNonNegative(x: real, y: real)
    requires 0.0 <= x && 0.0 < y
    ensures FMod(x, y) == Ieee754Remainder(x, y)
  {
    DivSign(x, y);
    assert Trunc(x / y) == (x / y).Floor;
  }

  /** On a non-negative dividend, adding the divisor does not change `fmod`. */
  lemma FModShift(x: real, y: real)
    requires 0.0 <= x && 0.0 < y
    ensures FMod(x + y, y) == FMod(x, y)
  {
    DivAddOne(x, y);
    DivSign(x, y);
    assert Trunc((x + y) / y) == Trunc(x / y) + 1;
  }

  // ---------------------------------------------------------------------------
  // HSV to RGB with value 1
  // ---------------------------------------------------------------------------

  /** Phase of each channel in the triangular kernel. */
  const RedPhase := 5.0
  const GreenPhase := 3.0
  const BluePhase := 1.0

  /** An RGB triple of integer channels. */
  datatype Rgb = Rgb(r: int, g: int, b: int)

  predicate InByteRange(c: Rgb) {
    0 <= c.r <= ByteMax && 0 <= c.g <= ByteMax && 0 <= c.b <= ByteMax
  }

  /** The triangular kernel `max(min(k, 4-k, 1), 0)`, clamped to [0, 1]. */
  function Kernel(k: real): (c: real)
    ensures 0.0 <= c <= 1.0
    ensures 0.0 <= k <= 1.0 ==> c == k
    ensures 1.0 <= k <= 3.0 ==> c == 1.0
    ensures 3.0 <= k <= 4.0 ==> c == 4.0 - k
    ensures k <= 0.0 || 4.0 <= k ==> c == 0.0
  {
    RMax(RMin(RMin(k, 4.0 - k), 1.0), 0.0)
  }

  /** The clamped kernel of `hsv_f` at phase `n`: `k = fmod(n + h/60, 6)`,
      with the integer hue converted to a float before the division. */
  function HueKernel(n: real, h: int): (c: real)
    ensures 0.0 <= c <= 1.0
  {
    Kernel(FMod(n + h as real / 60.0, 6.0))
  }

  /** `hsv_f`: one channel of the HSV to RGB conversion. With saturation 0 the
      channel is `v`; for a saturation in [0, 1] it lies in [0, v]. */
  function HsvF(n: real, h: int, s: real, v: real): (r: real)
    ensures s == 0.0 ==> r == v
    ensures 0.0 <= s <= 1.0 && 0.0 <= v ==> 0.0 <= r <= v
  {
    ScaledKernelBound(v, s, HueKernel(n, h));
    v - v * s * HueKernel(n, h)
  }

  lemma UnitFactor(s: real, c: real)
    ensures 1.0 - 1.0 * s * c == 1.0 - s * c
  {
  }

  lemma ScaledKernelBound(v: real, s: real, c: real)
    requires 0.0 <= c <= 1.0
    ensures 0.0 <= v && 0.0 <= s <= 1.0 ==> 0.0 <= v * s * c <= v
  {
    if 0.0 <= v && 0.0 <= s <= 1.0 {
      ProductOfFractions(s, c);
      MulLe(s * c, 1.0, v);
      MulLe(0.0, s * c, v);
      assert 1.0 * v == v;
      assert v * s * c == (s * c) * v;
    }
  }

  /** `hs2rgb`: each channel is `255 * hsv_f(phase, h, s, 1)` truncated to an
      integer by the assignment to `int`. Saturation 0 gives white for every
      hue, and a saturation in [0, 1] keeps every channel in [0, 255]. */
  function Hs2Rgb(h: int, s: real): (c: Rgb)
    ensures s == 0.0 ==> c == Rgb(ByteMax, ByteMax, ByteMax)
    ensures 0.0 <= s <= 1.0 ==> InByteRange(c)
  {
    Rgb(Channel(RedPhase, h, s), Channel(GreenPhase, h, s), Channel(BluePhase, h, s))
  }

  /** One channel of `hs2rgb` as an integer. */
  function Channel(n: real, h: int, s: real): (x: int)
    ensures s == 0.0 ==> x == ByteMax
    ensures 0.0 <= s <= 1.0 ==> 0 <= x <= ByteMax
  {
    var f := HsvF(n, h, s, 1.0);
    assert 0.0 <= s <= 1.0 ==> 0.0 <= 255.0 * f <= ByteMax as real;
    Trunc(255.0 * f)
  }

  /** A channel at value 1 whose kernel (or sector fraction) is `c`. */
  function Shade(s: real, c: real): real {
    1.0 - s * c
  }

  lemma ShadeEnds(s: real)
    ensures Shade(s, 0.0) == 1.0 && Shade(s, 1.0) == 1.0 - s
  {
  }

  /** The textbook sector form of HSV to RGB with value 1, an independent
      reference for `Hs2Rgb`: the hue picks a 60-degree sector i and a
      fraction f within it, and each channel is one of 1, p = 1-s,
      q = 1-s*f or t = 1-s*(1-f). */
  function SectorRgb(h: int, s: real): (real, real, real)
    requires 0 <= h < 360
  {
    var i := h / 60;
    var f := (h % 60) as real / 60.0;
    var p, q, t := 1.0 - s, Shade(s, f), Shade(s, 1.0 - f);
    if i == 0 then (1.0, t, p)
    else if i == 1 then (q, 1.0, p)
    else if i == 2 then (p, 1.0, t)
    else if i == 3 then (p, q, 1.0)
    else if i == 4 then (t, p, 1.0)
    else (1.0, p, q)
  }

  /** Below two periods, `fmod(x, 6)` subtracts at most one period. */
  lemma FModSixSmall(x: real)
    requires 0.0 <= x < 12.0
    ensures FMod(x, 6.0) == if x < 6.0 then x else x - 6.0
  {
    assert Trunc(x / 6.0) == if x < 6.0 then 0 else 1;
  }

  /** `hsv_f` with value 1 is one minus the saturation times the kernel. */
  lemma HsvFUnitValue(n: real, h: int, s: real)
    ensures HsvF(n, h, s, 1.0) == Shade(s, HueKernel(n, h))
  {
    HsvFUnfold(n, h, s);
    UnitFactor(s, HueKernel(n, h));
  }

  lemma HsvFUnfold(n: real, h: int, s: real)
    ensures HsvF(n, h, s, 1.0) == 1.0 - 1.0 * s * HueKernel(n, h)
  {
  }

  /** The hue in sixths of a turn splits into the sector index and the
      fraction within the sector. */
  lemma HueSplit(h: int)
    requires 0 <= h < 360
    ensures 0 <= h / 60 < 6
    ensures 0.0 <= (h % 60) as real / 60.0 < 1.0
    ensures h as real / 60.0 == (h / 60) as real + (h % 60) as real / 60.0
  {
    assert h == 60 * (h / 60) + h % 60;
  }

  /** The kernel of each channel, sector by sector. */
  lemma HueKernelSectors(h: int)
    requires 0 <= h < 360
    ensures var i, f := h / 60, (h % 60) as real / 60.0;
      && (i == 0 ==> HueKernel(RedPhase, h) == 0.0 && HueKernel(GreenPhase, h) == 1.0 - f && HueKernel(BluePhase, h) == 1.0)
      && (i == 1 ==> HueKernel(RedPhase, h) == f && HueKernel(GreenPhase, h) == 0.0 && HueKernel(BluePhase, h) == 1.0)
      && (i == 2 ==> HueKernel(RedPhase, h) == 1.0 && HueKernel(GreenPhase, h) == 0.0 && HueKernel(BluePhase, h) == 1.0 - f)
      && (i == 3 ==> HueKernel(RedPhase, h) == 1.0 && HueKernel(GreenPhase, h) == f && HueKernel(BluePhase, h) == 0.0)
      && (i == 4 ==> HueKernel(RedPhase, h) == 1.0 - f && HueKernel(GreenPhase, h) == 1.0 && HueKernel(BluePhase, h) == 0.0)
      && (i == 5 ==> HueKernel(RedPhase, h) == 0.0 && HueKernel(GreenPhase, h) == 1.0 && HueKernel(BluePhase, h) == f)
  {
    HueSplit(h);
    var hue := h as real / 60.0;
    FModSixSmall(RedPhase + hue);
    FModSixSmall(GreenPhase + hue);
    FModSixSmall(BluePhase + hue);
  }

  lemma SectorsAreShadedKernels(h: int, s: real)
    requires 0 <= h < 360
    ensures SectorRgb(h, s)
         == (Shade(s, HueKernel(RedPhase, h)), Shade(s, HueKernel(GreenPhase, h)), Shade(s, HueKernel(BluePhase, h)))
  {
    HueKernelSectors(h);
    ShadeEnds(s);
  }

  /** A channel of `hs2rgb` as a function of its kernel. */
  lemma ChannelOfKernel(n: real, h: int, s: real)
    ensures Channel(n, h, s) == Trunc(255.0 * Shade(s, HueKernel(n, h)))
  {
    HsvFUnitValue(n, h, s);
  }

  /** On one turn of the hue circle, the triangular-kernel formula agrees with
      the sector form channel by channel. */
  lemma Hs2RgbMatchesSectors(h: int, s: real)
    requires 0 <= h < 360
    ensures var (r, g, b) := SectorRgb(h, s);
            Hs2Rgb(h, s) == Rgb(Trunc(255.0 * r), Trunc(255.0 * g), Trunc(255.0 * b))
  {
    SectorsAreShadedKernels(h, s);
    ChannelOfKernel(RedPhase, h, s);
    ChannelOfKernel(GreenPhase, h, s);
    ChannelOfKernel(BluePhase, h, s);
  }

  /** Full-saturation sector values in whole units of 255. */
  lemma TruncUnitEnds()
    ensures Trunc(255.0 * 1.0) == ByteMax && Trunc(255.0 * 0.0) == 0
  {
  }

  /** The three primaries at full saturation: red at 0, green at 120 and blue
      at 240 degrees. */
  lemma Hs2RgbPrimaries()
    ensures Hs2Rgb(0, 1.0) == Rgb(ByteMax, 0, 0)
    ensures Hs2Rgb(120, 1.0) == Rgb(0, ByteMax, 0)
    ensures Hs2Rgb(240, 1.0) == Rgb(0, 0, ByteMax)
  {
    PrimaryRed();
    PrimaryGreen();
    PrimaryBlue();
  }

  lemma PrimaryRed()
    ensures Hs2Rgb(0, 1.0) == Rgb(ByteMax, 0, 0)
  {
    ShadeEnds(1.0);
    assert SectorRgb(0, 1.0) == (1.0, 0.0, 0.0);
    Hs2RgbMatchesSectors(0, 1.0);
    TruncUnitEnds();
  }

  lemma PrimaryGreen()
    ensures Hs2Rgb(120, 1.0) == Rgb(0, ByteMax, 0)
  {
    ShadeEnds(1.0);
    assert SectorRgb(120, 1.0) == (0.0, 1.0, 0.0);
    Hs2RgbMatchesSectors(120, 1.0);
    TruncUnitEnds();
  }

  lemma PrimaryBlue()
    ensures Hs2Rgb(240, 1.0) == Rgb(0, 0, ByteMax)
  {
    ShadeEnds(1.0);
    assert SectorRgb(240, 1.0) == (0.0, 0.0, 1.0);
    Hs2RgbMatchesSectors(240, 1.0);
    TruncUnitEnds();
  }

  /** At hue 0 red stays full and green and blue both drop to 255*(1-s). */
  lemma Hs2RgbHueZero(s: real)
    ensures Hs2Rgb(0, s) == Rgb(ByteMax, Trunc(255.0 * (1.0 - s)), Trunc(255.0 * (1.0 - s)))
  {
    ShadeEnds(s);
    Hs2RgbMatchesSectors(0, s);
  }

  /** Adding a full turn to a non-negative hue adds 6 inside `fmod(..., 6)`,
      which leaves every kernel unchanged. */
  lemma HueKernelPeriodic(n: real, h: int)
    requires 0.0 <= n && 0 <= h
    ensures HueKernel(n, h + 360) == HueKernel(n, h)
  {
    var x := n + h as real / 60.0;
    assert n + (h + 360) as real / 60.0 == x + 6.0;
    FModShift(x, 6.0);
  }

  /** `hs2rgb` is periodic with period 360 on non-negative hues. */
  lemma Hs2RgbPeriodic(h: int, s: real)
    requires 0 <= h
    ensures Hs2Rgb(h + 360, s) == Hs2Rgb(h, s)
  {
    HueKernelPeriodic(RedPhase, h);
    HueKernelPeriodic(GreenPhase, h);
    HueKernelPeriodic(BluePhase, h);
    ChannelOfKernel(RedPhase, h, s);
    ChannelOfKernel(GreenPhase, h, s);
    ChannelOfKernel(BluePhase, h, s);
    ChannelOfKernel(RedPhase, h + 360, s);
    ChannelOfKernel(GreenPhase, h + 360, s);
    ChannelOfKernel(BluePhase, h + 360, s);
  }

  /** The kernel of a non-negative hue is the kernel of its remainder modulo 360. */
  lemma {:induction false} HueKernelReduce(n: real, h: int)
    requires 0.0 <= n && 0 <= h
    ensures HueKernel(n, h) == HueKernel(n, h % 360)
    decreases h
  {
    if h >= 360 {
      var k := h - 360;
      HueKernelReduce(n, k);
      HueKernelTurn(n, k, h);
    } else {
      assert h % 360 == h;
    }
  }

  /** One step of the reduction: a kernel known to reduce at `k` also reduces
      one full turn further on. */
  lemma HueKernelTurn(n: real, k: int, h: int)
    requires 0.0 <= n && 0 <= k && h == k + 360
    requires HueKernel(n, k) == HueKernel(n, k % 360)
    ensures HueKernel(n, h) == HueKernel(n, h % 360)
  {
    HueKernelPeriodic(n, k);
    assert k % 360 == h % 360;
  }

  /** Every non-negative hue gives the colour of its remainder modulo 360. */
  lemma Hs2RgbReduce(h: int, s: real)
    requires 0 <= h
    ensures Hs2Rgb(h, s) == Hs2Rgb(h % 360, s)
  {
    var m := h % 360;
    HueKernelReduce(RedPhase, h);
    HueKernelReduce(GreenPhase, h);
    HueKernelReduce(BluePhase, h);
    ChannelOfKernel(RedPhase, h, s);
    ChannelOfKernel(GreenPhase, h, s);
    ChannelOfKernel(BluePhase, h, s);
    ChannelOfKernel(RedPhase, m, s);
    ChannelOfKernel(GreenPhase, m, s);
    ChannelOfKernel(BluePhase, m, s);
  }

  /** Every non-negative hue gets the colour the sector form assigns to its
      remainder modulo 360. */
  lemma Hs2RgbMatchesSectorsAnyTurn(h: int, s: real)
    requires 0 <= h
    ensures var (r, g, b) := SectorRgb(h % 360, s);
            Hs2Rgb(h, s) == Rgb(Trunc(255.0 * r), Trunc(255.0 * g), Trunc(255.0 * b))
  {
    Hs2RgbReduce(h, s);
    Hs2RgbMatchesSectors(h % 360, s);
  }

  /** `fmod` keeps the sign of a negative dividend, so a negative hue is not
      the colour of the same angle taken modulo 360: -300 degrees gives white
      at full saturation, while 60 degrees gives yellow. */
  lemma NegativeHueNotPeriodic()
    ensures Hs2Rgb(-300, 1.0) == Rgb(ByteMax, ByteMax, ByteMax)
    ensures Hs2Rgb(60, 1.0) == Rgb(ByteMax, ByteMax, 0)
  {
    ShadeEnds(1.0);
    TruncUnitEnds();
    assert SectorRgb(60, 1.0) == (1.0, 1.0, 0.0);
    Hs2RgbMatchesSectors(60, 1.0);
    NegativeHueKernels();
    ChannelOfKernel(RedPhase, -300, 1.0);
    ChannelOfKernel(GreenPhase, -300, 1.0);
    ChannelOfKernel(BluePhase, -300, 1.0);
  }

  /** At -300 degrees the phases land on 0, -2 and -4, where the kernel is 0. */
  lemma NegativeHueKernels()
    ensures HueKernel(RedPhase, -300) == 0.0
    ensures HueKernel(GreenPhase, -300) == 0.0
    ensures HueKernel(BluePhase, -300) == 0.0
  {
    assert (-300) as real / 60.0 == -5.0;
    assert Trunc(0.0 / 6.0) == 0 && Trunc(-2.0 / 6.0) == 0 && Trunc(-4.0 / 6.0) == 0;
    assert FMod(RedPhase - 5.0, 6.0) == 0.0;
    assert FMod(GreenPhase - 5.0, 6.0) == -2.0;
    assert FMod(BluePhase - 5.0, 6.0) == -4.0;
  }
}
