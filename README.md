# colors.py in Dafny

A model of a small colour value library, with proofs about it. The library
holds colours in three forms:

- **RGB**: red, green and blue channels.
- **HSV**: hue, saturation and value.
- **Hex**: six hexadecimal digits, stored as three two-digit pairs.

It blends two colours on their RGB projections with `multiply`, `add`,
`subtract`, `divide`, `screen`, `difference`, `overlay` and `invert`. It
compares colours on their RGB projections. `random()` builds a random HSV
colour, and a `ColorWheel` produces an endless series of hues about 0.1 to 0.2
apart.

The repository holds two versions, and each has its own module:

- `ColorsBase` (`colors_base.dfy`) models the current library, `colors/base.py`.
- `ColorsLegacy` (`colors_legacy.dfy`) models the older copy, `src/colors.py`
  (version 0.0.0). Its RGB and HSV constructors do no rounding or validation.
  Its colour wheel wraps only when the phase is strictly above 1, and never
  wraps the start value. It defines no `__eq__`, `__ne__`, `__contains__` or
  blend operators, so Python's `==` on two legacy colours is object identity;
  the legacy round-trip lemmas speak of Dafny value equality of the stored
  channels, not of Python's `==`.

Two modules are shared by both versions:

- `HexCodec` (`hexcodec.dfy`): hex digits, ASCII lower-casing, one byte as two
  digits, and Python's `'%02x'` formatting of an integer, negative numbers
  included.
- `Results` (`results.dfy`): one error constructor per exception the library
  raises, and a `Result` type.

Modelling decisions:

- Channels are exact numbers, not floats. `RGBColor(r, g, b)` rounds each
  argument as Python 2's `round` does: to the nearest integer, a tie going
  away from zero. Python 2's `round` returns an integral float, such as
  `150.0`; the model's `int` channels stand for those floats, so a base RGB
  colour holds three whole numbers. For integer
  inputs in [0, 255], the products divided by 255 in `multiply` and `screen`
  never fall on a tie of one half. So the exact model rounds exactly as the
  float code does.
- The blend operators take the RGB projections of their operands (`other.rgb`
  in the source). A hex colour's projection is `HexColor.Rgb`. An HSV colour's
  projection goes through `colorsys`, which is not part of this model.
- The range check in `RGBColor.__init__` is written `0 > c > 255`. Python reads
  this as `0 > c and c > 255`, which no number satisfies. The model keeps the
  test as written (`ChannelCheckFires`) and proves that it never fires. So
  `NewRGB` always succeeds, and out-of-range channels such as 300 or -1 are
  stored. The error message at `colors/base.py:194` says channels must be
  between 0 and 255, yet the test can never fire; the model follows the code.
- `Color.hex` formats with `'%02x%02x%02x'`. Python writes a negative channel
  as `-` followed by its digits, and a channel above 255 with three or more
  digits. The resulting string then fails in `HexColor` with a length error or
  a digit error. `HexOfRgb` states exactly which error comes out. Python 2
  formats a float with `%x` by truncating it through `int()`. This matters only
  in the legacy model, whose channels are not rounded.
- Random draws are inputs. The wheel's jitter `random() * 0.1 + 0.1` is the
  `shift` parameter of `Next`, with precondition `0.1 <= shift < 0.2`.
  `random()` takes its three draws, each in [0, 1), as parameters.
- `ColorWheel` is a class with one mutable field, `phase`. `Next` changes it in
  place. `WheelStep` and `WheelRun` give the phase after one step and after a
  series of steps.

## Model

| member | source | states |
|---|---|---|
| HexCodec.HexRangeIsHexDigits | colors/base.py:13 | `HEX_RANGE` holds exactly the lower-case hex digits 0-9 and a-f |
| HexCodec.LowerChar | colors/base.py:218 | lower-casing changes only A-Z; its result is never upper-case; an upper-case letter becomes its lower-case letter; a character is a hex digit after lower-casing exactly when it was a hex digit or one of A-F |
| HexCodec.Lower | colors/base.py:218 | `str.lower()` keeps the length and lower-cases each character in place |
| HexCodec.LowerIdempotent | colors/base.py:218 | lower-casing twice is the same as lower-casing once |
| HexCodec.LowerFixesHexDigits | colors/base.py:39 | a string of hex digits and minus signs is left unchanged by lower-casing |
| HexCodec.Digit | colors/base.py:39 | every value in [0, 16) is written as a lower-case hex digit |
| HexCodec.DigitValue | colors/base.py:226 | a hex digit's value lies in [0, 16), and writing that value gives back the digit |
| HexCodec.DigitRoundTrip | colors/base.py:226 | reading the digit written for d gives back d |
| HexCodec.EncodeByte | colors/base.py:39 | every byte formats to two lower-case hex digits |
| HexCodec.DecodePair | colors/base.py:226 | `int(pair, 16)` of two hex digits lies in [0, 255], and formatting it reproduces the pair |
| HexCodec.ByteRoundTrip | colors/base.py:39 | decoding the two digits of a byte gives back the byte |
| HexCodec.DecodePairInjective | colors/base.py:226 | two pairs decode to the same byte only if the pairs are equal |
| HexCodec.HexDigits | colors/base.py:39 | `'%x'` of a non-negative integer is at least one character, all of them hex digits |
| HexCodec.HexDigitsLength | colors/base.py:39 | `'%x'` is one digit exactly below 16, two digits exactly for 16..255, and for those it is the byte's two digits |
| HexCodec.Format02xShape | colors/base.py:39 | `'%02x' % n` is at least two characters, exactly two only for -15..255, and all hex digits only for n >= 0; for a byte it is the byte's two digits |
| HexCodec.Format02x | colors/base.py:39 | Python's `'%02x' % n` on one integer; no ensures of its own, its shape is stated by `Format02xShape` |
| HexCodec.Format3 | colors/base.py:39 | `'%02x%02x%02x' % (r, g, b)`; no ensures of its own, its shape is stated by `Format3Shape` |
| HexCodec.Format3Shape | colors/base.py:39 | `'%02x%02x%02x'` gives six characters only when every channel is in -15..255; then it is all hex digits only when no channel is negative, and for bytes it is the three pairs |
| ColorsBase.Round | colors/base.py:191 | Python 2 `round`: the result is within 1/2 of x, and a tie goes away from zero |
| ColorsBase.RoundInteger | colors/base.py:191 | rounding an integer gives the integer |
| ColorsBase.RoundWithin | colors/base.py:191 | rounding keeps a value between two integer bounds |
| ColorsBase.Trunc | colors/base.py:171 | `int(x)` truncates toward zero |
| ColorsBase.RGBColor.Channels | colors/base.py:132-143 | iteration yields red, green and blue, in that order |
| ColorsBase.RGBColor.Len | colors/base.py:145-146 | `len` of an RGB colour is 3 |
| ColorsBase.RGBColor.Contains | colors/base.py:126-127 | `item in colour` holds exactly when item is a whole number equal to one of the stored channels |
| ColorsBase.RGBColor.Hex | colors/base.py:36-39 | `Color.hex` on an RGB colour: format the channels and parse the string as a hex colour; no ensures of its own, every outcome is stated by `HexOfRgb` |
| ColorsBase.NewRGB | colors/base.py:190-194 | `RGBColor(r, g, b)` never fails and stores the three rounded arguments |
| ColorsBase.ChannelCheckFires | colors/base.py:193 | the range test `0 > c > 255` as Python chains it; no ensures of its own, `ChannelCheckNeverFires` states that it holds for no channel |
| ColorsBase.ChannelCheckNeverFires | colors/base.py:192-194 | the range test `0 > c > 255` holds for no channel, so (300, -1, 0) is accepted |
| ColorsBase.NewRGBIntegers | colors/base.py:190-191 | integer arguments are stored unchanged |
| ColorsBase.HexColor.Rgb | colors/base.py:224-226 | `.rgb` of a hex colour is in [0, 255] on every channel, and each channel formats back to its pair |
| ColorsBase.HexColor.Str | colors/base.py:236-237 | `str()` of a hex colour is six hex digits |
| ColorsBase.HexColor.Channels | colors/base.py:132-143 | iteration over a hex colour yields its three pairs, in order |
| ColorsBase.HexColor.Len | colors/base.py:145-146 | `len` of a hex colour is 3 |
| ColorsBase.HexColor.Contains | colors/base.py:126-127 | `item in colour` for a hex colour tests membership among the stored pairs |
| ColorsBase.CharSet | colors/base.py:219 | `set(hex)`; no ensures of its own, `NewHex` states that the subset test accepts exactly the strings of hex digits |
| ColorsBase.NewHex | colors/base.py:214-222 | a length other than 6 fails with the length error, before any digit check; a six-character string is accepted exactly when every lower-cased character is a hex digit, and otherwise fails with the digit error; the stored pairs are those of the lower-cased string, and `str()` gives that string |
| ColorsBase.NewHexIgnoresCase | colors/base.py:218 | parsing a string and parsing its lower-cased form give the same result |
| ColorsBase.HexOfRgb | colors/base.py:36-39 | `.hex` of an RGB colour fails with the length error when a channel is outside -15..255, fails with the digit error when a channel is negative, and otherwise stores each channel's two digits; it succeeds exactly for colours in [0, 255] |
| ColorsBase.HexRoundTrip | colors/base.py:37-39 | for integer r, g, b in [0, 255], `RGBColor(r, g, b).hex` is six lower-case hex digits, and its `.rgb` is `RGBColor(r, g, b)` |
| ColorsBase.HexOfHexRgb | colors/base.py:232-234 | formatting a hex colour's RGB projection gives back the same hex colour, so the `hex` override returning the colour itself agrees with `Color.hex` |
| ColorsBase.HexEqualityIsCaseInsensitive | colors/base.py:119-124 | two hex colours compare equal exactly when their lower-cased strings are equal |
| ColorsBase.HexExamples | colors/base.py:214-226 | `Hex("bada55").rgb` is (0xba, 0xda, 0x55); `Hex("BADA55")` is `Hex("bada55")`; "bada5" fails on length and "bada5g" fails on digits |
| ColorsBase.Equals | colors/base.py:119-124 | `==` holds exactly when the red, green and blue channels of both projections agree |
| ColorsBase.NotEquals | colors/base.py:129-130 | `!=` is the negation of `==` |
| ColorsBase.Multiply | colors/base.py:49-56 | `multiply` on the RGB projections; no ensures of its own, see `MultiplyChannel` and `MultiplyBounds` |
| ColorsBase.Add | colors/base.py:60-67 | `add` on the RGB projections; no ensures of its own, see `AddSaturates` |
| ColorsBase.Divide | colors/base.py:71-80 | `divide` on the RGB projections, with the division error; no ensures of its own, see `DivideSpec` |
| ColorsBase.Subtract | colors/base.py:84-91 | `subtract` on the RGB projections; no ensures of its own, see `SubtractClamps` |
| ColorsBase.Screen | colors/base.py:95-102 | `screen` on the RGB projections; no ensures of its own, see `ScreenChannel` and `ScreenBounds` |
| ColorsBase.Difference | colors/base.py:104-111 | `difference` on the RGB projections; no ensures of its own, see `DifferenceIsDistance` |
| ColorsBase.Overlay | colors/base.py:113-114 | `overlay` as screen of self with multiply of self and other; no ensures of its own, see `OverlayBounds` |
| ColorsBase.Invert | colors/base.py:116-117 | `invert` as difference with white; no ensures of its own, see `InvertInvolutive` |
| ColorsBase.MultiplyChannel | colors/base.py:53-55 | for channels in [0, 255], the rounded `a * b / 255.0` lies between 0 and min(a, b) |
| ColorsBase.MultiplyBounds | colors/base.py:49-56 | `multiply` keeps in-range colours in range, and no channel exceeds the smaller operand's channel |
| ColorsBase.ProductBound | colors/base.py:99-101 | a product of two values in [0, 255] is at most 255 times the smaller value |
| ColorsBase.ScreenChannel | colors/base.py:99-101 | for channels in [0, 255], the rounded `255 - (255 - a) * (255 - b) / 255.0` lies between max(a, b) and 255 |
| ColorsBase.ScreenBounds | colors/base.py:95-102 | `screen` keeps in-range colours in range, and no channel falls below the larger operand's channel |
| ColorsBase.OverlayBounds | colors/base.py:113-114 | `overlay` (screen of self with multiply of self and other) stays in range and never darkens the first operand |
| ColorsBase.AddSaturates | colors/base.py:60-67 | `add` gives `min(255, a + b)` per channel on every input, and keeps in-range colours in range |
| ColorsBase.SubtractClamps | colors/base.py:84-91 | `subtract` gives `max(0, a - b)` per channel on every input, and keeps in-range colours in range |
| ColorsBase.DifferenceIsDistance | colors/base.py:104-111 | `difference` gives `abs(a - b)` per channel, is symmetric, and keeps in-range colours in range |
| ColorsBase.InvertInvolutive | colors/base.py:116-117 | `invert` maps each in-range channel c to 255 - c, so inverting twice gives the colour back |
| ColorsBase.DivideChannel | colors/base.py:77-79 | for a >= 0 and b >= 1, the rounded `a / b` lies between 0 and a |
| ColorsBase.DivideSpec | colors/base.py:71-80 | `divide` fails with the division error exactly when a divisor channel is 0; otherwise each channel is the rounded quotient, and for in-range operands the result is in range and no channel exceeds the dividend's |
| ColorsBase.OperatorExamples | colors/base.py:60-117 | (200,200,200) + (100,100,100) is white; (10,10,10) - (100,100,100) is black; dividing by (0,1,1) fails; white inverts to black; iterating (100, 50, 0) gives [100, 50, 0] |
| ColorsBase.HSVColor.Channels | colors/base.py:132-143 | iteration over an HSV colour yields hue, saturation and value, in that order |
| ColorsBase.HSVColor.Len | colors/base.py:145-146 | `len` of an HSV colour is 3 |
| ColorsBase.HSVColor.Contains | colors/base.py:126-127 | `item in colour` for an HSV colour tests membership among the stored channels |
| ColorsBase.NewHSV | colors/base.py:163-173 | a saturation above 1 fails first, then a value above 1; otherwise s and v are stored; a hue of 1 or more is stored as a value in [0, 1) that differs from it by a whole number; any other hue is stored unchanged |
| ColorsBase.HsvExamples | colors/base.py:163-173 | `HSV(0, 1.5, 0)` fails on saturation; a hue of 2.25 is stored as 0.25; a hue of -0.5 is kept |
| ColorsBase.Random | colors/base.py:271-281 | `random()` with three draws in [0, 1) never fails, stores the draws, and every channel lies in [0, 1) |
| ColorsBase.StartPhase | colors/base.py:254-258 | the wheel's start loses 1 once if it is at least 1, so a start in [0, 2) gives a phase in [0, 1), and a start of 2 or more stays at 1 or above; exactly the starts of at least 1 lose 1 |
| ColorsBase.WheelStep | colors/base.py:263-267 | one step adds the shift and subtracts 1 exactly when the sum reaches 1, on every phase; a phase in [0, 1) stays in [0, 1) |
| ColorsBase.WheelRun | colors/base.py:263-267 | a phase in [0, 1) stays in [0, 1) over any number of steps with valid shifts |
| ColorsBase.WheelRunTracksShifts | colors/base.py:263-267 | after any number of steps, the phase equals the start plus all shifts, less a whole number of turns |
| ColorsBase.ColorWheel.constructor | colors/base.py:254-258 | the phase starts at `StartPhase(start)`, and the wheel's invariant holds for a start in [0, 2) |
| ColorsBase.ColorWheel.Next | colors/base.py:263-268 | `next` moves the phase by `WheelStep`, keeps the phase in [0, 1), and returns HSV(phase, 1, 0.8) |
| ColorsBase.WheelClient | colors/base.py:248-252 | two successive `next` calls on a wheel started in [0, 2) give hues in [0, 1), the second one at `WheelRun` of both shifts |
| ColorsLegacy.TruncIsByte | src/colors.py:38 | `int(x)` is in [0, 255] exactly for x in (-1, 256) |
| ColorsLegacy.RGBColor.Channels | src/colors.py:48-60 | iteration yields the three stored channels, in order |
| ColorsLegacy.RGBColor.Len | src/colors.py:62-63 | `len` of an RGB colour is 3 |
| ColorsLegacy.RGBColor.Hex | src/colors.py:35-38 | `Color.hex` on an unrounded RGB colour, each channel truncated by `int()` before formatting; no ensures of its own, every outcome is stated by `ColorsLegacy.HexOfRgb` |
| ColorsLegacy.HSVColor.Channels | src/colors.py:48-60 | iteration over an HSV colour yields the three stored channels, in order |
| ColorsLegacy.HSVColor.Len | src/colors.py:62-63 | `len` of an HSV colour is 3 |
| ColorsLegacy.HexColor.Rgb | src/colors.py:130-132 | `.rgb` of a hex colour holds whole numbers in [0, 255], each formatting back to its pair |
| ColorsLegacy.HexColor.Str | src/colors.py:142-143 | `str()` of a hex colour is six hex digits |
| ColorsLegacy.HexColor.Channels | src/colors.py:48-60 | iteration over a hex colour yields its three pairs, in order |
| ColorsLegacy.HexColor.Len | src/colors.py:62-63 | `len` of a hex colour is 3 |
| ColorsLegacy.HexDigitCharsAreHexDigits | src/colors.py:125 | the loop's digit string holds exactly the lower-case hex digits |
| ColorsLegacy.FirstNonHex | src/colors.py:124-126 | the digit loop stops at the first character that is not a hex digit, and every character before it is a hex digit |
| ColorsLegacy.NewHex | src/colors.py:119-128 | a length other than 6 fails with the length error first; a six-character string is accepted exactly when every lower-cased character is a hex digit, and otherwise fails with the digit error; the lower-cased pairs are stored, and `str()` gives the lower-cased string |
| ColorsLegacy.NewHexAgreesWithBase | src/colors.py:119-128 | the old and new hex constructors accept the same strings, fail with the same error and store the same pairs |
| ColorsLegacy.HexOfRgb | src/colors.py:35-38 | `.hex` of an RGB colour is decided by the truncated channels: the length error outside -15..255, the digit error below 0, otherwise each channel's two digits; it succeeds exactly when every channel is in (-1, 256) |
| ColorsLegacy.HexRoundTrip | src/colors.py:131-132 | for an accepted string, `.rgb` then `.hex` gives back the same hex colour value, whose `str()` is the lower-cased string |
| ColorsLegacy.RgbRoundTrip | src/colors.py:35-38 | an integer RGB colour in [0, 255] formats to a hex colour whose `.rgb` holds the same channel values again |
| ColorsLegacy.ConstructorsDiffer | src/colors.py:80-81 | the old constructors store their arguments as given: a channel of 0.5 is kept (the new one stores 1), a saturation of 2 is accepted (the new one rejects it), and a hue of 1.5 is kept (the new one stores 0.5) |
| ColorsLegacy.WheelStep | src/colors.py:167-171 | one old step adds the shift and subtracts 1 exactly when the sum is strictly above 1, on every phase; a sum of exactly 1 is kept as 1; a phase in [0, 1] stays in [0, 1] |
| ColorsLegacy.WheelRun | src/colors.py:167-171 | a phase in [0, 1] stays in [0, 1] over any number of steps with valid shifts |
| ColorsLegacy.WheelStepsDiffer | src/colors.py:170-171 | the old and new wheel steps agree exactly when phase + shift is not 1; at 1 the old wheel stays at 1 and the new one wraps to 0 |
| ColorsLegacy.ColorWheel.constructor | src/colors.py:161-162 | the phase is the start, unwrapped; the invariant holds for a start in [0, 1] |
| ColorsLegacy.ColorWheel.Next | src/colors.py:167-172 | `next` moves the phase by the old `WheelStep`, keeps it in the closed interval [0, 1], and returns HSV(phase, 1, 0.8) |

## Left out

- HSV to RGB and RGB to HSV go through `colorsys`, which is not part of this model. This covers `HSVColor.rgb`, `RGBColor.hsv` and `HexColor.hsv` (colors/base.py:175-177, 200-202, 228-230; src/colors.py:83-85, 105-107). So the operators, equality and `.hex` are modelled on RGB and hex operands only. An HSV operand would first need its RGB projection.
- The random source `random_.random()` is not modelled. Its draws are parameters, so the doctest outputs that depend on its state are not stated.
- `__str__` and `__repr__` of numeric colours are not modelled: their text depends on how Python prints floats. `HexColor.__str__` is modelled.
- The metaclass that generates the named accessors is not modelled. Its effect is the datatypes' named fields. A hex colour's fields are named `red`, `green` and `blue`, as the inherited accessors are.
- The operator aliases `__mul__`, `__add__`, `__div__` and `__sub__` are the same functions as `multiply`, `add`, `divide` and `subtract`.
- The identity conversions `RGBColor.rgb`, `HSVColor.hsv` and `HexColor.hex` return the object itself. In a value model that is the value itself, so there is nothing to state. `HexOfHexRgb` shows the hex override agrees with the general `Color.hex`.
- Default constructor arguments (`0`, `"000000"`) are not modelled: every argument is explicit.
- `random()` in src/colors.py (src/colors.py:175-185) is not modelled separately. It builds an unvalidated HSV colour from three draws.
- Lower-casing is ASCII only, as Python 2's `str.lower()` is on a byte string. Unicode case mapping is not modelled.
- `ColorWheel.__iter__` returns the wheel itself. The endless iteration is a series of `Next` calls.
- `colors/__init__.py` only re-exports the module and holds version metadata, and `setup.py` is packaging. Neither is modelled.
