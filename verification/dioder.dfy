/**
 The accessory's light state and the state-to-duty pipeline of the firmware:
 six characteristic values (colour on, hue, saturation and brightness; white
 on and brightness), the computation of the four PWM duty values from them,
 and the getter/setter pairs through which the accessory protocol reads and
 writes them. The PWM driver's channel table is an abstract 4-slot sequence
 written one slot at a time.
 */
module Dioder {
  import opened CArith
  import opened Converters

  // ---------------------------------------------------------------------------
  // State
  // ---------------------------------------------------------------------------

  /** PWM channel indices, in the order the driver is configured. */
  const WhiteChannel := 0
  const RedChannel := 1
  const GreenChannel := 2
  const BlueChannel := 3
  const ChannelCount := 4

  /** The PWM driver's duty table, one duty per channel. */
  type DutyTable = t: seq<int> | |t| == 4 witness [0, 0, 0, 0]

  /** The six characteristic values the accessory keeps. Hue and saturation
      are floats in the firmware and reals here; brightness is a percentage. */
  datatype LightState = LightState(
    colorOn: bool,
    colorHue: real,
    colorSaturation: real,
    colorBrightness: int,
    whiteOn: bool,
    whiteBrightness: int)

  /** The values the state starts with: both lights on at full brightness,
      hue 0 and saturation 0. */
  const Defaults := LightState(true, 0.0, 0.0, 100, true, 100)

  /** The ranges the accessory protocol declares for the characteristics.
      The firmware does not check them; they are the hypothesis of the bounds
      below, not a precondition of any operation. */
  predicate InRange(st: LightState) {
    && 0 <= st.colorBrightness <= 100
    && 0.0 <= st.colorSaturation <= 100.0
    && 0 <= st.whiteBrightness <= 100
  }

  // ---------------------------------------------------------------------------
  // update_pwm
  // ---------------------------------------------------------------------------

  /** Duty of the white channel: the brightness remapped from 0..100 onto
      0..65535, or 0 when the white light is off. The integer slope is 655,
      so full brightness gives 65500. */
  function WhiteDuty(st: LightState): (d: int)
    ensures !st.whiteOn ==> d == 0
    ensures st.whiteOn ==> d == 655 * st.whiteBrightness
    ensures 0 <= st.whiteBrightness <= 100 ==> 0 <= d <= UInt16Max
  {
    MapPercentToDuty(st.whiteBrightness);
    if st.whiteOn then Map(st.whiteBrightness, 0, 100, 0, UInt16Max) else 0
  }

  /** The dimming factor `brightness / 100` as a float. */
  function Dim(brightness: int): real {
    brightness as real / 100.0
  }

  /** The 8-bit intensity times the dimming factor is a float passed to
      `map`'s `int` parameter, so it is truncated to a whole level. A level
      and a factor in range give a level in range. */
  function DimmedLevel(x: int, dim: real): (l: int)
    ensures 0 <= x <= ByteMax && 0.0 <= dim <= 1.0 ==> 0 <= l <= ByteMax
  {
    DimmedLevelBound(x, dim);
    Trunc(x as real * dim)
  }

  /** Duty of one colour channel: the dimmed level remapped from 0..255 onto
      0..65535. The slope there is exactly 257, so every colour duty is a
      multiple of 257. */
  function DimmedDuty(x: int, dim: real): (d: int)
    ensures d % 257 == 0
    ensures 0 <= x <= ByteMax && 0.0 <= dim <= 1.0 ==> 0 <= d <= UInt16Max
  {
    var level := DimmedLevel(x, dim);
    MapByteToDuty(level);
    Map(level, 0, ByteMax, 0, UInt16Max)
  }

  lemma DimmedLevelBound(x: int, dim: real)
    ensures 0 <= x <= ByteMax && 0.0 <= dim <= 1.0 ==> 0 <= Trunc(x as real * dim) <= ByteMax
  {
    if 0 <= x <= ByteMax && 0.0 <= dim <= 1.0 {
      var xr := x as real;
      MulLe(dim, 1.0, xr);
      MulLe(0.0, dim, xr);
      assert 0.0 <= dim * xr <= 1.0 * xr;
      assert 0.0 <= xr * dim <= ByteMax as real;
    }
  }

  /** Duties of the red, green and blue channels. When the colour light is on
      the float hue is truncated to an `int` degree and the saturation scaled
      to a fraction before the HSV to RGB conversion; each channel is then
      dimmed and remapped. When it is off all three are 0. */
  function ColorDuty(st: LightState): (c: Rgb)
    ensures !st.colorOn ==> c == Rgb(0, 0, 0)
    ensures InRange(st) ==> 0 <= c.r <= UInt16Max && 0 <= c.g <= UInt16Max && 0 <= c.b <= UInt16Max
    ensures c.r % 257 == 0 && c.g % 257 == 0 && c.b % 257 == 0
  {
    if st.colorOn then
      DimmedRgb(Hs2Rgb(Trunc(st.colorHue), st.colorSaturation / 100.0), Dim(st.colorBrightness))
    else
      Rgb(0, 0, 0)
  }

  /** Each 8-bit channel of `c` dimmed by `dim` and remapped to a duty. */
  function DimmedRgb(c: Rgb, dim: real): (d: Rgb)
    ensures d.r % 257 == 0 && d.g % 257 == 0 && d.b % 257 == 0
    ensures InByteRange(c) && 0.0 <= dim <= 1.0
            ==> 0 <= d.r <= UInt16Max && 0 <= d.g <= UInt16Max && 0 <= d.b <= UInt16Max
  {
    Rgb(DimmedDuty(c.r, dim), DimmedDuty(c.g, dim), DimmedDuty(c.b, dim))
  }

  /** `multipwm_set_duty`: store one channel's duty in the driver's table. */
  function SetDuty(table: DutyTable, channel: int, duty: int): (t: DutyTable)
    requires 0 <= channel < ChannelCount
    ensures t[channel] == duty
    ensures forall i | 0 <= i < ChannelCount && i != channel :: t[i] == table[i]
  {
    table[channel := duty]
  }

  /** `update_pwm`: recompute all four duties from the state and write them
      into the driver's table in channel order. A light that is off gets duty
      0 whatever its other values; white at brightness b gets 655*b; and for
      in-range values every duty lies in 0..65535. */
  function UpdatePwm(st: LightState, table: DutyTable): (t: DutyTable)
    ensures !st.whiteOn ==> t[WhiteChannel] == 0
    ensures st.whiteOn ==> t[WhiteChannel] == 655 * st.whiteBrightness
    ensures !st.colorOn ==> t[RedChannel] == 0 && t[GreenChannel] == 0 && t[BlueChannel] == 0
    ensures t[RedChannel] == ColorDuty(st).r && t[GreenChannel] == ColorDuty(st).g
            && t[BlueChannel] == ColorDuty(st).b
    ensures InRange(st) ==> forall i | 0 <= i < ChannelCount :: 0 <= t[i] <= UInt16Max
  {
    var c := ColorDuty(st);
    var t0 := SetDuty(table, WhiteChannel, WhiteDuty(st));
    var t1 := SetDuty(t0, RedChannel, c.r);
    var t2 := SetDuty(t1, GreenChannel, c.g);
    SetDuty(t2, BlueChannel, c.b)
  }

  /** With the colour light on, each colour duty is 257 times the `hs2rgb`
      channel of the truncated hue, dimmed and truncated again. */
  lemma ColorDutyLevels(st: LightState)
    requires st.colorOn
    ensures var rgb, dim := Hs2Rgb(Trunc(st.colorHue), st.colorSaturation / 100.0), Dim(st.colorBrightness);
            ColorDuty(st) == Rgb(257 * DimmedLevel(rgb.r, dim), 257 * DimmedLevel(rgb.g, dim),
                                 257 * DimmedLevel(rgb.b, dim))
  {
    var rgb, dim := Hs2Rgb(Trunc(st.colorHue), st.colorSaturation / 100.0), Dim(st.colorBrightness);
    assert ColorDuty(st) == DimmedRgb(rgb, dim);
    DimmedRgbLevels(rgb, dim);
  }

  /** Dimming a colour multiplies each truncated dimmed channel by 257. */
  lemma DimmedRgbLevels(c: Rgb, dim: real)
    ensures DimmedRgb(c, dim)
            == Rgb(257 * DimmedLevel(c.r, dim), 257 * DimmedLevel(c.g, dim), 257 * DimmedLevel(c.b, dim))
  {
    DimmedDutyLevel(c.r, dim);
    DimmedDutyLevel(c.g, dim);
    DimmedDutyLevel(c.b, dim);
  }

  /** With the colour light on and a non-negative hue, the colour duties
      follow the textbook sector form of HSV to RGB at the whole-degree hue
      modulo 360: each sector-form channel is scaled to 0..255 and truncated
      (`hs2rgb`'s `int` assignment), dimmed and truncated again (`map`'s `int`
      parameter), and multiplied by the slope 257. */
  lemma ColorDutyMatchesSectors(st: LightState)
    requires st.colorOn && 0.0 <= st.colorHue
    ensures var sec, dim := SectorRgb(Trunc(st.colorHue) % 360, st.colorSaturation / 100.0), Dim(st.colorBrightness);
            ColorDuty(st) == Rgb(257 * DimmedLevel(Trunc(255.0 * sec.0), dim),
                                 257 * DimmedLevel(Trunc(255.0 * sec.1), dim),
                                 257 * DimmedLevel(Trunc(255.0 * sec.2), dim))
  {
    var h, sat, dim := Trunc(st.colorHue), st.colorSaturation / 100.0, Dim(st.colorBrightness);
    var rgb := Hs2Rgb(h, sat);
    var sec := SectorRgb(h % 360, sat);
    Hs2RgbMatchesSectorsAnyTurn(h, sat);
    ColorDutyLevels(st);
  }

  /** Every slot is overwritten: the previous table has no influence. */
  lemma UpdatePwmOverwritesTable(st: LightState, t1: DutyTable, t2: DutyTable)
    ensures UpdatePwm(st, t1) == UpdatePwm(st, t2)
  {
    var a, b := UpdatePwm(st, t1), UpdatePwm(st, t2);
    assert forall i | 0 <= i < ChannelCount :: a[i] == b[i];
  }

  /** Recomputing with an unchanged state publishes the same duties again. */
  lemma UpdatePwmIdempotent(st: LightState, table: DutyTable)
    ensures UpdatePwm(st, UpdatePwm(st, table)) == UpdatePwm(st, table)
  {
    UpdatePwmOverwritesTable(st, UpdatePwm(st, table), table);
  }

  /** The white duty depends on the white light's values only. */
  lemma WhiteDutyDependsOnlyOnWhite(st1: LightState, st2: LightState, t1: DutyTable, t2: DutyTable)
    requires st1.whiteOn == st2.whiteOn && st1.whiteBrightness == st2.whiteBrightness
    ensures UpdatePwm(st1, t1)[WhiteChannel] == UpdatePwm(st2, t2)[WhiteChannel]
  {
  }

  /** The colour duties depend on the colour light's values only. */
  lemma ColorDutiesDependOnlyOnColor(st1: LightState, st2: LightState, t1: DutyTable, t2: DutyTable)
    requires st1.colorOn == st2.colorOn && st1.colorHue == st2.colorHue
    requires st1.colorSaturation == st2.colorSaturation && st1.colorBrightness == st2.colorBrightness
    ensures UpdatePwm(st1, t1)[RedChannel] == UpdatePwm(st2, t2)[RedChannel]
    ensures UpdatePwm(st1, t1)[GreenChannel] == UpdatePwm(st2, t2)[GreenChannel]
    ensures UpdatePwm(st1, t1)[BlueChannel] == UpdatePwm(st2, t2)[BlueChannel]
  {
    assert ColorDuty(st1) == ColorDuty(st2);
  }

  /** Only the whole-degree part of the hue matters: it is truncated to an
      `int` when passed to the conversion. */
  lemma HueFractionIgnored(st: LightState, hue: real, table: DutyTable)
    requires Trunc(hue) == Trunc(st.colorHue)
    ensures UpdatePwm(st.(colorHue := hue), table) == UpdatePwm(st, table)
  {
    assert ColorDuty(st.(colorHue := hue)) == ColorDuty(st);
    UpdatePwmOverwritesTable(st, table, table);
  }

  /** The colour light on at saturation 0 and brightness 100 drives red,
      green and blue at the full 65535. */
  lemma FullWhiteFromColor(st: LightState, table: DutyTable)
    requires st.colorOn && st.colorSaturation == 0.0 && st.colorBrightness == 100
    ensures UpdatePwm(st, table)[RedChannel] == UInt16Max
    ensures UpdatePwm(st, table)[GreenChannel] == UInt16Max
    ensures UpdatePwm(st, table)[BlueChannel] == UInt16Max
  {
    assert Dim(100) == 1.0;
    assert Trunc(ByteMax as real * 1.0) == ByteMax;
    MapByteToDuty(ByteMax);
    assert DimmedDuty(ByteMax, 1.0) == UInt16Max;
    assert ColorDuty(st) == Rgb(UInt16Max, UInt16Max, UInt16Max);
  }

  /** White off, colour on at hue 0, saturation 100 and brightness 50: red
      255 dimmed by one half is 127.5, truncated to 127, remapped to
      257*127 = 32639; green and blue are 0. */
  lemma HalfRedScenario(st: LightState, table: DutyTable)
    requires !st.whiteOn && st.colorOn
    requires st.colorHue == 0.0 && st.colorSaturation == 100.0 && st.colorBrightness == 50
    ensures UpdatePwm(st, table) == [0, 32639, 0, 0]
  {
    HalfRedColorDuty(st);
    var t := UpdatePwm(st, table);
    assert t[WhiteChannel] == 0 && t[RedChannel] == 32639;
    assert t[GreenChannel] == 0 && t[BlueChannel] == 0;
  }

  lemma HalfRedColorDuty(st: LightState)
    requires st.colorOn && st.colorHue == 0.0 && st.colorSaturation == 100.0 && st.colorBrightness == 50
    ensures ColorDuty(st) == Rgb(32639, 0, 0)
  {
    var rgb := Hs2Rgb(Trunc(st.colorHue), st.colorSaturation / 100.0);
    FullRedAtHueZero(st.colorHue, st.colorSaturation);
    ColorDutyLevels(st);
    HalfDimmedDuties();
    assert Dim(st.colorBrightness) == 0.5;
    assert ColorDuty(st) == Rgb(257 * DimmedLevel(ByteMax, 0.5), 257 * DimmedLevel(0, 0.5), 257 * DimmedLevel(0, 0.5));
  }

  // The scenario's values reach the conversion through parameters pinned by
  // `requires` rather than as literals: with literal arguments the solver
  // unfolds the whole conversion chain at once and does not finish.
  lemma FullRedAtHueZero(hue: real, saturation: real)
    requires hue == 0.0 && saturation == 100.0
    ensures Hs2Rgb(Trunc(hue), saturation / 100.0) == Rgb(ByteMax, 0, 0)
  {
    var h, s := Trunc(hue), saturation / 100.0;
    assert h == 0 && s == 1.0;
    PrimaryAt(h, s);
  }

  lemma PrimaryAt(h: int, s: real)
    requires h == 0 && s == 1.0
    ensures Hs2Rgb(h, s) == Rgb(ByteMax, 0, 0)
  {
    PrimaryRed();
  }

  lemma HalfDimmedDuties()
    ensures Dim(50) == 0.5
    ensures DimmedLevel(ByteMax, 0.5) == 127 && DimmedLevel(0, 0.5) == 0
  {
    assert ByteMax as real * 0.5 == 127.5;
    assert Trunc(127.5) == 127;
    assert DimmedLevel(ByteMax, 0.5) == 127 && DimmedLevel(0, 0.5) == 0;
    assert 0 as real * 0.5 == 0.0;
  }

  /** A colour duty is 257 times the dimmed level. */
  lemma DimmedDutyLevel(x: int, dim: real)
    ensures DimmedDuty(x, dim) == 257 * DimmedLevel(x, dim)
  {
    MapByteToDuty(DimmedLevel(x, dim));
  }

  /** Brightness is applied before the truncation to a whole 8-bit level:
      the colour light on at saturation 0 and brightness 1 gives
      255*0.01 = 2.55, truncated to 2, so each colour duty is 514. */
  lemma LowBrightnessTruncates(st: LightState, table: DutyTable)
    requires st.colorOn && st.colorSaturation == 0.0 && st.colorBrightness == 1
    ensures UpdatePwm(st, table)[RedChannel] == 514
    ensures UpdatePwm(st, table)[GreenChannel] == 514
    ensures UpdatePwm(st, table)[BlueChannel] == 514
  {
    assert Dim(1) == 0.01;
    DimmedDutyLevel(ByteMax, 0.01);
    assert ByteMax as real * 0.01 == 2.55;
    assert Trunc(2.55) == 2;
    assert DimmedLevel(ByteMax, 0.01) == 2;
    assert DimmedDuty(ByteMax, 0.01) == 514;
    assert ColorDuty(st) == Rgb(514, 514, 514);
  }

  // ---------------------------------------------------------------------------
  // The accessory: state plus the driver's table
  // ---------------------------------------------------------------------------

  /** The state together with the driver's duty table. */
  datatype Accessory = Accessory(state: LightState, pwm: DutyTable)

  /** The table holds what `update_pwm` computes from the state. */
  predicate Consistent(a: Accessory) {
    a.pwm == UpdatePwm(a.state, a.pwm)
  }

  /** Store a state and recompute the table from it, as every setter does. */
  function Publish(st: LightState, table: DutyTable): (a: Accessory)
    ensures a.state == st
    ensures Consistent(a)
  {
    UpdatePwmIdempotent(st, table);
    Accessory(st, UpdatePwm(st, table))
  }

  /** `init_pwm`: with the state at its defaults, the first `update_pwm`
      writes 65500 for white and 65535 for each colour channel, whatever the
      table held before. */
  function InitPwm(table: DutyTable): (a: Accessory)
    ensures a.state == Defaults
    ensures Consistent(a)
    ensures a.pwm == [65500, UInt16Max, UInt16Max, UInt16Max]
  {
    FullWhiteFromColor(Defaults, table);
    Publish(Defaults, table)
  }

  /** The six characteristics the accessory protocol reads and writes. */
  datatype Characteristic =
    | ColorOn | ColorBrightness | ColorHue | ColorSaturation
    | WhiteOn | WhiteBrightness

  /** `st2` agrees with `st1` on every characteristic except `c`. */
  predicate SameExcept(st1: LightState, st2: LightState, c: Characteristic) {
    && (c != ColorOn ==> st2.colorOn == st1.colorOn)
    && (c != ColorBrightness ==> st2.colorBrightness == st1.colorBrightness)
    && (c != ColorHue ==> st2.colorHue == st1.colorHue)
    && (c != ColorSaturation ==> st2.colorSaturation == st1.colorSaturation)
    && (c != WhiteOn ==> st2.whiteOn == st1.whiteOn)
    && (c != WhiteBrightness ==> st2.whiteBrightness == st1.whiteBrightness)
  }

  // Getters

  function ColorOnGet(a: Accessory): bool { a.state.colorOn }
  function ColorBrightnessGet(a: Accessory): int { a.state.colorBrightness }
  function ColorHueGet(a: Accessory): real { a.state.colorHue }
  function ColorSaturationGet(a: Accessory): real { a.state.colorSaturation }
  function WhiteOnGet(a: Accessory): bool { a.state.whiteOn }
  function WhiteBrightnessGet(a: Accessory): int { a.state.whiteBrightness }

  // Setters: each overwrites one characteristic and then runs update_pwm.

  function ColorOnSet(a: Accessory, value: bool): (a': Accessory)
    ensures ColorOnGet(a') == value
    ensures SameExcept(a.state, a'.state, ColorOn)
    ensures Consistent(a')
  {
    Publish(a.state.(colorOn := value), a.pwm)
  }

  function ColorBrightnessSet(a: Accessory, value: int): (a': Accessory)
    ensures ColorBrightnessGet(a') == value
    ensures SameExcept(a.state, a'.state, ColorBrightness)
    ensures Consistent(a')
  {
    Publish(a.state.(colorBrightness := value), a.pwm)
  }

  function ColorHueSet(a: Accessory, value: real): (a': Accessory)
    ensures ColorHueGet(a') == value
    ensures SameExcept(a.state, a'.state, ColorHue)
    ensures Consistent(a')
  {
    Publish(a.state.(colorHue := value), a.pwm)
  }

  function ColorSaturationSet(a: Accessory, value: real): (a': Accessory)
    ensures ColorSaturationGet(a') == value
    ensures SameExcept(a.state, a'.state, ColorSaturation)
    ensures Consistent(a')
  {
    Publish(a.state.(colorSaturation := value), a.pwm)
  }

  function WhiteOnSet(a: Accessory, value: bool): (a': Accessory)
    ensures WhiteOnGet(a') == value
    ensures SameExcept(a.state, a'.state, WhiteOn)
    ensures Consistent(a')
  {
    Publish(a.state.(whiteOn := value), a.pwm)
  }

  function WhiteBrightnessSet(a: Accessory, value: int): (a': Accessory)
    ensures WhiteBrightnessGet(a') == value
    ensures SameExcept(a.state, a'.state, WhiteBrightness)
    ensures Consistent(a')
  {
    Publish(a.state.(whiteBrightness := value), a.pwm)
  }

  /** Writing a white characteristic leaves the colour duties as they were. */
  lemma WhiteSettersKeepColorDuties(a: Accessory, on: bool, brightness: int)
    requires Consistent(a)
    ensures WhiteOnSet(a, on).pwm[RedChannel..] == a.pwm[RedChannel..]
    ensures WhiteBrightnessSet(a, brightness).pwm[RedChannel..] == a.pwm[RedChannel..]
  {
    ColorDutiesDependOnlyOnColor(a.state, WhiteOnSet(a, on).state, a.pwm, a.pwm);
    ColorDutiesDependOnlyOnColor(a.state, WhiteBrightnessSet(a, brightness).state, a.pwm, a.pwm);
  }

  /** Writing a colour characteristic leaves the white duty as it was. */
  lemma ColorSettersKeepWhiteDuty(a: Accessory, on: bool, brightness: int, hue: real, saturation: real)
    requires Consistent(a)
    ensures ColorOnSet(a, on).pwm[WhiteChannel] == a.pwm[WhiteChannel]
    ensures ColorBrightnessSet(a, brightness).pwm[WhiteChannel] == a.pwm[WhiteChannel]
    ensures ColorHueSet(a, hue).pwm[WhiteChannel] == a.pwm[WhiteChannel]
    ensures ColorSaturationSet(a, saturation).pwm[WhiteChannel] == a.pwm[WhiteChannel]
  {
  }
}
