# homekit-dioder: a Dafny model of the light-state to PWM pipeline

homekit-dioder is ESP8266 firmware that exposes an IKEA Dioder LED strip as a
HomeKit accessory with two lights: a colour light (on, hue, saturation,
brightness) and a white light (on, brightness). Whenever a characteristic is
written, `update_pwm` recomputes four PWM duty values (white, red, green,
blue). This project models that computation and the helpers it uses, and
proves properties of them.

- `c_arith.dfy` (module `CArith`) holds the C arithmetic that Dafny's
  operators do not match. `Div` is `/` on `int`, truncated toward zero.
  `Trunc` is the float-to-`int` conversion, also truncated toward zero. The
  module also holds small real-arithmetic helper lemmas.
- `converters.dfy` (module `Converters`) covers `converters.h`:
  - `map`, the integer range remap whose slope is an integer quotient;
  - `__ieee754_remainder`, which is in fact a floored remainder;
  - C's `fmod` as `hsv_f` uses it;
  - `hsv_f` and `hs2rgb`, the triangular-kernel form of HSV to RGB with
    value 1.

  It also defines the textbook sector form of HSV to RGB (`SectorRgb`). That
  form is an independent reference, and the kernel formula is proved equal
  to it on every non-negative hue.
- `dioder.dfy` (module `Dioder`) covers `homekit-dioder.c`:
  - the six state variables and their initial values;
  - `update_pwm`, with the driver's channel table modelled as a 4-slot
    sequence;
  - `init_pwm`'s first `update_pwm`;
  - the six getter/setter pairs. Each setter stores one value and
    republishes the table.

Floats are modelled as exact reals. Every place where the C code turns a float
into an `int` is written out as `Trunc`. That happens at:
- the assignment in `hs2rgb`;
- the hue argument of `hs2rgb`;
- the `r * dim` argument of `map`.

### Where the code and the natural reading differ

The model follows the code in each case below:
- `update_pwm` passes `r * dim` to `map`'s `int` parameter, so the dimmed
  channel is truncated, not rounded. Red 255 at brightness 50 gives 127, and
  then 32639.
- The hue is never reduced modulo 360 before the conversion. The only
  wrapping is `fmod(..., 6)` inside `hsv_f`. `fmod` keeps the sign of its
  dividend, so a negative hue is not equivalent to the same angle plus 360
  (`NegativeHueNotPeriodic`). Non-negative hues are periodic
  (`Hs2RgbPeriodic`, `Hs2RgbReduce`).
- `map` divides the spans before multiplying. Brightness 0..100 onto
  0..65535 has slope 655, so 50 % gives 32750 and 100 % gives 65500, not
  65535. Colour 0..255 onto 0..65535 has slope exactly 257.
- `__ieee754_remainder` computes `x - y*floor(x/y)`, a floored remainder.
  It is not the IEEE 754 round-to-nearest remainder its name suggests.

## Model

| member | source | states |
|---|---|---|
| CArith.Div | converters.h:21 | C's integer `/`. It agrees with the Euclidean quotient on non-negative operands. A dividend smaller than the divisor in magnitude gives 0. Otherwise the quotient is negative exactly when the operand signs differ. |
| CArith.DivTruncates | converters.h:21 | The remainder left by the truncating quotient is smaller than the divisor in magnitude. It is zero or has the sign of the dividend, i.e. the quotient rounds toward zero. |
| CArith.Trunc | converters.h:36-38 | The float-to-`int` conversion drops the fraction toward zero. A non-negative x gives r <= x < r+1; a negative x gives r-1 < x <= r. |
| Converters.Map | converters.h:20-22 | The value at the input floor maps to the output floor. For ordered ranges, an in-range value maps into the output range. |
| Converters.MapBelowExact | converters.h:21 | Compared with the rational-slope remap, the integer slope never overshoots. It loses less than one output unit per input step. |
| Converters.MapExactWhenDivisible | converters.h:21 | When the input span divides the output span, the remap equals the rational remap exactly. |
| Converters.MapSlopeCollapse | converters.h:21 | An output span narrower than the input span gives slope 0, so every value maps to the output floor. |
| Converters.MapMonotone | converters.h:20-22 | On ordered ranges the remap is non-decreasing in the value. |
| Converters.MapByteToDuty | homekit-dioder.c:73-75 | Remapping 0..255 onto 0..65535 multiplies by exactly 257, so 255 reaches 65535. |
| Converters.MapPercentToDuty | homekit-dioder.c:58 | Remapping 0..100 onto 0..65535 multiplies by 655, so 100 gives 65500, below 65535. |
| Converters.Ieee754Remainder | converters.h:25-27 | The result lies in [0, y) for positive y and in (y, 0] for negative y, and x minus it is a whole multiple of y. |
| Converters.Ieee754RemainderUnique | converters.h:25-27 | For positive y, any decomposition x = q*y + r with whole q and r in [0, y) has r equal to the remainder. |
| Converters.FMod | converters.h:31 | `fmod` with a positive divisor lies in [0, y) for a non-negative dividend and in (-y, 0] for a negative one. The dividend minus it is a whole multiple of y. |
| Converters.FModIsRemainderWhenNonNegative | converters.h:25-31 | On a non-negative dividend, `fmod` agrees with the floored remainder. |
| Converters.FModShift | converters.h:31 | On a non-negative dividend, adding the divisor leaves `fmod` unchanged. |
| Converters.Kernel | converters.h:32 | The clamped kernel lies in [0, 1]. It is k on [0,1], 1 on [1,3], 4-k on [3,4] and 0 elsewhere. |
| Converters.HueKernel | converters.h:31-32 | The kernel of a phase and an integer hue lies in [0, 1]. |
| Converters.HsvF | converters.h:30-33 | Saturation 0 gives exactly v. A saturation in [0,1] and a non-negative v give a result in [0, v]. |
| Converters.Channel | converters.h:36-38 | A channel is 255 at saturation 0, and lies in 0..255 for a saturation in [0,1]. |
| Converters.Hs2Rgb | converters.h:34-39 | Saturation 0 gives white (255, 255, 255) for every hue. A saturation in [0,1] keeps every channel in 0..255. |
| Converters.HueKernelSectors | converters.h:31-32 | The kernel of each of the three phases, for each 60-degree sector, in terms of the fraction within the sector. |
| Converters.Hs2RgbMatchesSectors | converters.h:29-39 | On [0, 360) the triangular-kernel conversion equals the sector form (1, t, p), (q, 1, p), (p, 1, t), (p, q, 1), (t, p, 1), (1, p, q), channel by channel. |
| Converters.Hs2RgbMatchesSectorsAnyTurn | converters.h:29-39 | A non-negative hue gets the sector-form colour of its remainder modulo 360. |
| Converters.Hs2RgbPrimaries | converters.h:34-39 | At full saturation, hue 0 is pure red, 120 pure green and 240 pure blue. |
| Converters.Hs2RgbHueZero | converters.h:34-39 | At hue 0, red is 255 and green and blue are both 255*(1-s), truncated. |
| Converters.HueKernelPeriodic | converters.h:31 | For non-negative hues and phases, adding 360 degrees leaves the kernel unchanged. |
| Converters.Hs2RgbPeriodic | converters.h:34-39 | For non-negative hues, adding 360 degrees leaves the colour unchanged. |
| Converters.HueKernelReduce | converters.h:31 | The kernel of a non-negative hue equals the kernel of the hue modulo 360. This is proved by induction on the number of turns. |
| Converters.Hs2RgbReduce | converters.h:34-39 | A non-negative hue gives the same colour as the hue modulo 360. |
| Converters.NegativeHueNotPeriodic | converters.h:31 | `fmod` keeps the dividend's sign, so at full saturation -300 degrees gives white while 60 degrees gives yellow. |
| Dioder.WhiteDuty | homekit-dioder.c:55-59 | White off gives duty 0. White on gives 655 times the brightness, which is within 0..65535 for a brightness in 0..100. |
| Dioder.DimmedLevel | homekit-dioder.c:73-75 | The channel times the dimming factor, truncated by `map`'s `int` parameter. An 8-bit channel and a factor in [0,1] give a level in 0..255. |
| Dioder.DimmedDuty | homekit-dioder.c:68-75 | A colour duty is always a multiple of 257. An 8-bit channel dimmed by a factor in [0,1] gives a duty within 0..65535. |
| Dioder.DimmedDutyLevel | homekit-dioder.c:73-75 | A colour duty is 257 times the truncated dimmed channel. |
| Dioder.DimmedRgb | homekit-dioder.c:73-75 | Every duty of a dimmed colour is a multiple of 257. An 8-bit colour and a factor in [0,1] give duties within 0..65535. |
| Dioder.DimmedRgbLevels | homekit-dioder.c:73-75 | Each duty of a dimmed colour is 257 times that channel's truncated dimmed level. |
| Dioder.ColorDutyLevels | homekit-dioder.c:66-75 | With the colour light on, each colour duty is 257 times the `hs2rgb` channel of the truncated hue and the saturation fraction, dimmed by brightness/100 and truncated. |
| Dioder.ColorDutyMatchesSectors | homekit-dioder.c:66-75 | With the colour light on and a non-negative hue, each colour duty is 257 times the textbook sector-form channel of the whole-degree hue modulo 360. That channel is scaled to 0..255 and truncated, then dimmed by brightness/100 and truncated again. |
| Dioder.ColorDuty | homekit-dioder.c:63-76 | Colour off gives three zero duties. In-range values give duties within 0..65535. Every colour duty is a multiple of 257. |
| Dioder.SetDuty | homekit-dioder.c:61 | Setting a channel's duty changes that slot and no other. |
| Dioder.UpdatePwm | homekit-dioder.c:54-81 | A light that is off gets duty 0 on its channels whatever its other values. White on gives 655*brightness. Slots 1-3 hold the red, green and blue colour duties. For in-range values every slot lies in 0..65535. |
| Dioder.UpdatePwmOverwritesTable | homekit-dioder.c:54-81 | All four slots are rewritten, so the previous table has no influence on the result. |
| Dioder.UpdatePwmIdempotent | homekit-dioder.c:54-81 | Recomputing with an unchanged state leaves the table as it is. |
| Dioder.WhiteDutyDependsOnlyOnWhite | homekit-dioder.c:55-61 | Two states that agree on white on and white brightness get the same white duty. |
| Dioder.ColorDutiesDependOnlyOnColor | homekit-dioder.c:63-80 | Two states that agree on the four colour values get the same red, green and blue duties. |
| Dioder.HueFractionIgnored | homekit-dioder.c:70 | Changing the hue without changing its truncated whole degrees leaves every duty unchanged. |
| Dioder.FullWhiteFromColor | homekit-dioder.c:66-75 | The colour light on at saturation 0 and brightness 100 drives red, green and blue at 65535. |
| Dioder.HalfRedScenario | homekit-dioder.c:54-81 | White off with colour on at hue 0, saturation 100 and brightness 50 gives the table [0, 32639, 0, 0]. |
| Dioder.LowBrightnessTruncates | homekit-dioder.c:68-75 | For any state with the colour light on at saturation 0 and brightness 1, whatever the hue and the white values, each colour channel gets 514, because 2.55 truncates to 2 before the remap. |
| Dioder.Publish | homekit-dioder.c:124-177 | Storing a state and running `update_pwm` leaves a table consistent with the stored state. |
| Dioder.InitPwm | homekit-dioder.c:83-95 | The first `update_pwm` runs on the initial values of lines 35-41. It produces [65500, 65535, 65535, 65535] whatever the table held, and that table is consistent with the state. |
| Dioder.ColorOnSet | homekit-dioder.c:120-128 | The getter then returns the written value, every other characteristic is unchanged, and the table is consistent with the new state. |
| Dioder.ColorBrightnessSet | homekit-dioder.c:130-138 | The getter then returns the written value, every other characteristic is unchanged, and the table is consistent with the new state. |
| Dioder.ColorHueSet | homekit-dioder.c:140-148 | The getter then returns the written value, every other characteristic is unchanged, and the table is consistent with the new state. |
| Dioder.ColorSaturationSet | homekit-dioder.c:150-158 | The getter then returns the written value, every other characteristic is unchanged, and the table is consistent with the new state. |
| Dioder.WhiteOnSet | homekit-dioder.c:160-168 | The getter then returns the written value, every other characteristic is unchanged, and the table is consistent with the new state. |
| Dioder.WhiteBrightnessSet | homekit-dioder.c:170-178 | The getter then returns the written value, every other characteristic is unchanged, and the table is consistent with the new state. |
| Dioder.WhiteSettersKeepColorDuties | homekit-dioder.c:160-178 | Starting from a consistent accessory, writing a white characteristic leaves the red, green and blue duties as they were. |
| Dioder.ColorSettersKeepWhiteDuty | homekit-dioder.c:120-158 | Starting from a consistent accessory, writing a colour characteristic leaves the white duty as it was. |

## Left out

- Wi-Fi setup (`wifi_init`), `user_init`, the `identify` task and the LED blink timing are not modelled. They are I/O and scheduling, with no computation.
- The accessory and characteristic tables and the server configuration are not modelled. They are static declarations handed to the HomeKit library.
- The PWM driver is not modelled: `multipwm_init`, `multipwm_set_pin` and `multipwm_start` configure hardware, and their source is not part of this model. `multipwm_set_duty` is a store into a 4-slot table.
- Dioder.SetDuty: stores the `int` duty as given. The driver's conversion to its 16-bit duty type is not modelled; for in-range state values every duty already lies in 0..65535 (`UpdatePwm`).
- The `homekit_value_t` union is not modelled. Each setter takes a value of the characteristic's own type; reading the wrong union member cannot happen in the model.
- Floating-point rounding is not modelled. `float` and `double` are exact reals, so single-precision rounding of `h/60.0f`, `n + h/60` and `255 * hsv_f(...)` is left out. A truncation that depends on the last bit of a float product is therefore not captured.
- 32-bit overflow is not modelled: integers are unbounded. For in-range characteristic values the products in the firmware's calls stay below 65536; the setters store values without checking them.
- Converters.Map: requires `in_upper != in_lower`. With equal bounds C divides by zero, which is undefined behaviour.
- Converters.FMod: defined only for a positive divisor, the only one the firmware uses (6). A zero divisor gives NaN in C.
- Converters.Ieee754Remainder: requires a non-zero divisor. C gives NaN for y == 0.
- `PWM_MAX` and the commented-out `min`/`max`/`limit` helpers are not modelled, because nothing uses them.
