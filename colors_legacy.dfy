/** The older, smaller copy of the library (`src/colors.py`, version 0.0.0):
    the same value types without rounding or validation, the same hex codec
    (digits checked one character at a time), and a colour wheel that wraps
    only once the phase is strictly above 1 and never wraps its start.

    Channels are exact reals: nothing here rounds them. Formatting a real
    channel with `%02x` goes through Python 2's `int()`, which truncates. */
module ColorsLegacy {
  import opened Results
  import opened HexCodec
  import Base = ColorsBase

  // ---------------------------------------------------------------------------
  // Value types

  /** A real that is a whole number in [0, 255]. */
  predicate IsByte(x: real) {
    x.Floor as real == x && 0 <= x.Floor <= 255
  }

  /** `int(x)` lands in [0, 255] exactly for x in (-1, 256). */
  lemma TruncIsByte(x: real)
    ensures 0 <= Base.Trunc(x) <= 255 <==> -1.0 < x < 256.0
  {
  }

  /** An RGB colour holding its three arguments as given. */
  datatype RGBColor = RGBColor(red: real, green: real, blue: real) {

    /** `__iter__`: the stored channels in order. */
    function Channels(): (s: seq<real>)
      ensures |s| == 3 && s[0] == red && s[1] == green && s[2] == blue
    {
      [red, green, blue]
    }

    /** `__len__`. */
    function Len(): (n: nat)
      ensures n == 3
    {
      |Channels()|
    }

    /** `Color.hex`: `HexColor('%02x%02x%02x' % tuple(self.rgb))`, each real
        channel passing through `int()` first. */
    function Hex(): Result<HexColor> {
      NewHex(Format3(Base.Trunc(red), Base.Trunc(green), Base.Trunc(blue)))
    }
  }

  /** An HSV colour holding its three arguments as given: no range check and
      no hue wrap. */
  datatype HSVColor = HSVColor(hue: real, saturation: real, value: real) {

    /** `__iter__`: the stored channels in order. */
    function Channels(): (s: seq<real>)
      ensures |s| == 3 && s[0] == hue && s[1] == saturation && s[2] == value
    {
      [hue, saturation, value]
    }

    /** `__len__`. */
    function Len(): (n: nat)
      ensures n == 3
    {
      |Channels()|
    }
  }

  /** A hex colour: the three two-character pairs of the lower-cased string. */
  datatype HexColor = HexColor(red: string, green: string, blue: string) {

    /** The shape every constructed hex colour has. */
    predicate Valid() {
      IsHexPair(red) && IsHexPair(green) && IsHexPair(blue)
    }

    /** `.rgb`: decode each pair in base 16; the integers are stored as they are. */
    function Rgb(): (c: RGBColor)
      requires Valid()
      ensures IsByte(c.red) && IsByte(c.green) && IsByte(c.blue)
      ensures EncodeByte(c.red.Floor) == red && EncodeByte(c.green.Floor) == green && EncodeByte(c.blue.Floor) == blue
    {
      RGBColor(DecodePair(red) as real, DecodePair(green) as real, DecodePair(blue) as real)
    }

    /** `__str__`: the three pairs run together. */
    function Str(): (s: string)
      requires Valid()
      ensures |s| == 6 && forall i :: 0 <= i < 6 ==> IsHexDigit(s[i])
    {
      red + green + blue
    }

    /** `__iter__`: the stored pairs in order. */
    function Channels(): (s: seq<string>)
      ensures |s| == 3 && s[0] == red && s[1] == green && s[2] == blue
    {
      [red, green, blue]
    }

    /** `__len__`. */
    function Len(): (n: nat)
      ensures n == 3
    {
      |Channels()|
    }
  }

  // ---------------------------------------------------------------------------
  // Hex codec

  /** The digits the constructor's loop accepts. */
  const HexDigitChars: string := "0123456789abcdef"

  lemma HexDigitCharsAreHexDigits()
    ensures forall c :: c in HexDigitChars <==> IsHexDigit(c)
  {
  }

  /** The constructor's digit loop from position `i` on: the index of the first
      character outside the accepted digits, or `|t|` when there is none. */
  function FirstNonHex(t: string, i: nat): (k: nat)
    requires i <= |t|
    ensures i <= k <= |t|
    ensures forall j :: i <= j < k ==> IsHexDigit(t[j])
    ensures k < |t| ==> !IsHexDigit(t[k])
    decreases |t| - i
  {
    HexDigitCharsAreHexDigits();
    if i == |t| then i
    else if t[i] !in HexDigitChars then i
    else FirstNonHex(t, i + 1)
  }

  /** `HexColor(hex)`: the length is checked first; the lower-cased string is
      then scanned and rejected at the first character that is not a digit;
      otherwise its three pairs are stored. */
  function NewHex(s: string): (r: Result<HexColor>)
    ensures |s| != 6 ==> r == Err(InvalidHexLength)
    ensures |s| == 6 ==> (r.Ok? <==> forall i :: 0 <= i < 6 ==> IsHexDigit(LowerChar(s[i])))
    ensures |s| == 6 && r.Err? ==> r.error == InvalidHexDigits
    ensures r.Ok? ==> r.value.Valid() && r.value.Str() == Lower(s)
    ensures r.Ok? ==> r.value == HexColor(Lower(s)[..2], Lower(s)[2..4], Lower(s)[4..6])
  {
    if |s| != 6 then
      Err(InvalidHexLength)
    else
      var t := Lower(s);
      if FirstNonHex(t, 0) < |t| then
        Err(InvalidHexDigits)
      else
        assert t[..2] + t[2..4] + t[4..6] == t;
        Ok(HexColor(t[..2], t[2..4], t[4..6]))
  }

  /** Both versions accept the same strings, fail with the same error, and
      store the same pairs. */
  lemma NewHexAgreesWithBase(s: string)
    ensures NewHex(s).Ok? <==> Base.NewHex(s).Ok?
    ensures NewHex(s).Err? ==> Base.NewHex(s).error == NewHex(s).error
    ensures NewHex(s).Ok? ==> NewHex(s).value.Channels() == Base.NewHex(s).value.Channels()
  {
  }

  /** `Color.hex` of any RGB colour: decided by the truncated channels, a
      channel whose truncation lies outside -15..255 failing on the length and
      one that truncates below 0 on the digits. A channel in (-1, 256) is
      accepted: -0.5 formats as "00". */
  lemma HexOfRgb(c: RGBColor)
    ensures var r, g, b := Base.Trunc(c.red), Base.Trunc(c.green), Base.Trunc(c.blue);
      c.Hex() ==
        if !(-15 <= r <= 255 && -15 <= g <= 255 && -15 <= b <= 255) then
          Err(InvalidHexLength)
        else if r < 0 || g < 0 || b < 0 then
          Err(InvalidHexDigits)
        else
          Ok(HexColor(EncodeByte(r), EncodeByte(g), EncodeByte(b)))
    ensures c.Hex().Ok? <==> -1.0 < c.red < 256.0 && -1.0 < c.green < 256.0 && -1.0 < c.blue < 256.0
  {
    TruncIsByte(c.red);
    TruncIsByte(c.green);
    TruncIsByte(c.blue);
    var r, g, b := Base.Trunc(c.red), Base.Trunc(c.green), Base.Trunc(c.blue);
    Format3Shape(r, g, b);
    if 0 <= r <= 255 && 0 <= g <= 255 && 0 <= b <= 255 {
      var e := EncodeByte(r) + EncodeByte(g) + EncodeByte(b);
      assert e[..2] == EncodeByte(r) && e[2..4] == EncodeByte(g) && e[4..6] == EncodeByte(b);
    }
  }

  /** Hex to RGB to hex: the pairs decode to integers in [0, 255], and formatting
      those reproduces the lower-cased string. */
  lemma HexRoundTrip(s: string)
    requires NewHex(s).Ok?
    ensures var h := NewHex(s).value;
      h.Rgb().Hex() == Ok(h) && h.Str() == Lower(s)
  {
    var h := NewHex(s).value;
    HexOfRgb(h.Rgb());
  }

  /** RGB to hex to RGB: an integer colour in [0, 255] comes back unchanged. */
  lemma RgbRoundTrip(r: int, g: int, b: int)
    requires 0 <= r <= 255 && 0 <= g <= 255 && 0 <= b <= 255
    ensures var c := RGBColor(r as real, g as real, b as real);
      c.Hex().Ok? && c.Hex().value.Valid() && c.Hex().value.Rgb() == c
  {
    var c := RGBColor(r as real, g as real, b as real);
    HexOfRgb(c);
    ByteRoundTrip(r);
    ByteRoundTrip(g);
    ByteRoundTrip(b);
  }

  /** Where the two versions' constructors part: the old ones keep fractions,
      accept a saturation above 1 and keep a hue of 1 or more. */
  lemma ConstructorsDiffer()
    ensures RGBColor(0.5, 0.0, 0.0).red == 0.5 && Base.NewRGB(0.5, 0.0, 0.0).value.red == 1
    ensures HSVColor(1.5, 2.0, 0.0).hue == 1.5 && Base.NewHSV(1.5, 2.0, 0.0).Err?
    ensures HSVColor(1.5, 1.0, 0.0).hue == 1.5 && Base.NewHSV(1.5, 1.0, 0.0).value.hue == 0.5
  {
  }

  // ---------------------------------------------------------------------------
  // ColorWheel

  /** One step of the old wheel: add the jitter, subtract 1 only when the sum
      is strictly above 1, so a phase of exactly 1 is kept. */
  function WheelStep(phase: real, shift: real): (p: real)
    ensures 0.0 <= phase <= 1.0 && 0.0 <= shift < 1.0 ==> 0.0 <= p <= 1.0
    ensures p == phase + shift || p == phase + shift - 1.0
    ensures phase + shift == 1.0 ==> p == 1.0
    ensures p == phase + shift - 1.0 <==> phase + shift > 1.0
  {
    if phase + shift > 1.0 then phase + shift - 1.0 else phase + shift
  }

  /** The phase after one step per jitter in `shifts`, oldest first. */
  function WheelRun(phase: real, shifts: seq<real>): (p: real)
    ensures 0.0 <= phase <= 1.0 && Base.AllValidShifts(shifts) ==> 0.0 <= p <= 1.0
    decreases |shifts|
  {
    if shifts == [] then phase
    else WheelStep(WheelRun(phase, shifts[..|shifts| - 1]), shifts[|shifts| - 1])
  }

  /** The two wheels take the same step except when the sum is exactly 1:
      the newer one wraps to 0, the older one stays at 1. */
  lemma WheelStepsDiffer(phase: real, shift: real)
    ensures WheelStep(phase, shift) == Base.WheelStep(phase, shift) <==> phase + shift != 1.0
    ensures phase + shift == 1.0 ==> WheelStep(phase, shift) == 1.0 && Base.WheelStep(phase, shift) == 0.0
  {
  }

  /** The old `ColorWheel`: the phase starts wherever `start` says and stays
      in the closed interval [0, 1] once it is there. */
  class ColorWheel {
    var phase: real

    /** The phase stays in [0, 1]. */
    ghost predicate Valid()
      reads this
    {
      0.0 <= phase <= 1.0
    }

    constructor (start: real)
      ensures phase == start
      ensures 0.0 <= start <= 1.0 ==> Valid()
    {
      phase := start;
    }

    /** `next()` with the jitter drawn by the caller. */
    method Next(shift: real) returns (c: HSVColor)
      requires Base.ValidShift(shift)
      modifies this
      ensures phase == WheelStep(old(phase), shift)
      ensures c == HSVColor(phase, 1.0, 0.8)
      ensures old(Valid()) ==> Valid()
    {
      phase := phase + shift;
      if phase > 1.0 {
        phase := phase - 1.0;
      }
      c := HSVColor(phase, 1.0, 0.8);
    }
  }
}
