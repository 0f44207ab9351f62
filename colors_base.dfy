/** The colour value library (`colors/base.py`): RGB, HSV and hex colour
    values, the blend operators on their RGB projections, the hex codec, the
    random colour factory and the colour wheel.

    Channels are exact numbers: a real argument is rounded the way Python 2's
    `round` does, so an RGB colour holds three integers. */
module ColorsBase {
  import opened Results
  import opened HexCodec

  // ---------------------------------------------------------------------------
  // Numbers

  function Min(a: int, b: int): int { if a <= b then a else b }
  function Max(a: int, b: int): int { if a >= b then a else b }
  function Abs(a: int): int { if a >= 0 then a else -a }

  /** Python 2 `round(x)`: the nearest integer, a tie going away from zero. */
  function Round(x: real): (n: int)
    ensures x >= 0.0 ==> x - 0.5 < n as real <= x + 0.5
    ensures x < 0.0 ==> x - 0.5 <= n as real < x + 0.5
  {
    if x >= 0.0 then (x + 0.5).Floor else -((-x + 0.5).Floor)
  }

  lemma RoundInteger(n: int)
    ensures Round(n as real) == n
  {
  }

  /** Rounding keeps a value between two integer bounds. */
  lemma RoundWithin(x: real, lo: int, hi: int)
    requires lo as real <= x <= hi as real
    ensures lo <= Round(x) <= hi
  {
  }

  /** Python's `int(x)` on a float: truncation toward zero. */
  function Trunc(x: real): (n: int)
    ensures x >= 0.0 ==> n as real <= x < n as real + 1.0
    ensures x < 0.0 ==> n as real - 1.0 < x <= n as real
  {
    if x >= 0.0 then x.Floor else -((-x).Floor)
  }

  // ---------------------------------------------------------------------------
  // RGBColor

  /** An RGB colour: the rounded red, green and blue channels, in that order. */
  datatype RGBColor = RGBColor(red: int, green: int, blue: int) {

    /** `__iter__`: the stored channels in order. */
    function Channels(): (s: seq<int>)
      ensures |s| == 3 && s[0] == red && s[1] == green && s[2] == blue
    {
      [red, green, blue]
    }

    /** `__len__`. */
    function Len(): (n: nat)
      ensures n == 3
    {
      |Channels()|
    }

    /** `__contains__`: `item in self._color`. */
    function Contains(item: real): (b: bool)
      ensures b <==> item.Floor as real == item && item.Floor in Channels()
    {
      item == red as real || item == green as real || item == blue as real
    }

    /** `Color.hex`: `HexColor('%02x%02x%02x' % tuple(self.rgb))`. */
    function Hex(): Result<HexColor> {
      NewHex(Format3(red, green, blue))
    }
  }

  /** Every channel within [0, 255]. */
  predicate InRange(c: RGBColor) {
    0 <= c.red <= 255 && 0 <= c.green <= 255 && 0 <= c.blue <= 255
  }

  /** The range test of `RGBColor.__init__` as written: Python chains
      `0 > c > 255` into `0 > c and c > 255`. */
  predicate ChannelCheckFires(c: int) {
    0 > c && c > 255
  }

  /** `RGBColor(r, g, b)`: round every channel, then run the range test on each.
      The test can never fire, so construction always succeeds and an
      out-of-range channel is stored as it is. */
  function NewRGB(r: real, g: real, b: real): (res: Result<RGBColor>)
    ensures res == Ok(RGBColor(Round(r), Round(g), Round(b)))
  {
    var c := RGBColor(Round(r), Round(g), Round(b));
    if ChannelCheckFires(c.red) || ChannelCheckFires(c.green) || ChannelCheckFires(c.blue) then
      Err(ChannelOutOfRange)
    else
      Ok(c)
  }

  /** The range test lets every integer through: 300 and -1 included. */
  lemma ChannelCheckNeverFires(c: int)
    ensures !ChannelCheckFires(c)
    ensures NewRGB(300.0, -1.0, 0.0) == Ok(RGBColor(300, -1, 0))
  {
  }

  /** Integer arguments are stored unchanged. */
  lemma NewRGBIntegers(r: int, g: int, b: int)
    ensures NewRGB(r as real, g as real, b as real) == Ok(RGBColor(r, g, b))
  {
    RoundInteger(r);
    RoundInteger(g);
    RoundInteger(b);
  }

  /** The colour an operator builds from three computed channel values. */
  function Build(r: real, g: real, b: real): RGBColor {
    NewRGB(r, g, b).value
  }

  // ---------------------------------------------------------------------------
  // HexColor

  /** A hex colour: the three two-character pairs of the lower-cased string.
      It inherits RGBColor's accessor names, so `red` is the first pair. */
  datatype HexColor = HexColor(red: string, green: string, blue: string) {

    /** The shape every constructed hex colour has. */
    predicate Valid() {
      IsHexPair(red) && IsHexPair(green) && IsHexPair(blue)
    }

    /** `.rgb`: decode each pair in base 16. */
    function Rgb(): (c: RGBColor)
      requires Valid()
      ensures InRange(c)
      ensures EncodeByte(c.red) == red && EncodeByte(c.green) == green && EncodeByte(c.blue) == blue
    {
      NewRGBIntegers(DecodePair(red), DecodePair(green), DecodePair(blue));
      Build(DecodePair(red) as real, DecodePair(green) as real, DecodePair(blue) as real)
    }

    /** `__str__`: the three pairs run together. */
    function Str(): (s: string)
      requires Valid()
      ensures |s| == 6 && forall i :: 0 <= i < 6 ==> IsHexDigit(s[i])
    {
      red + green + blue
    }

    /** `__iter__`: the stored pairs in order. */
    function Channels(): (s: seq<string>)
      ensures |s| == 3 && s[0] == red && s[1] == green && s[2] == blue
    {
      [red, green, blue]
    }

    /** `__len__`. */
    function Len(): (n: nat)
      ensures n == 3
    {
      |Channels()|
    }

    /** `__contains__`: membership among the stored pairs, not their values. */
    function Contains(item: string): (b: bool)
      ensures b <==> item in Channels()
    {
      item == red || item == green || item == blue
    }
  }

  /** `set(hex)`. */
  function CharSet(t: string): set<char> {
    set i | 0 <= i < |t| :: t[i]
  }

  /** `HexColor(hex)`: the length is checked first, then every lower-cased
      character must lie in `HEX_RANGE`; the pairs of the lower-cased string
      are stored. */
  function NewHex(s: string): (r: Result<HexColor>)
    ensures |s| != 6 ==> r == Err(InvalidHexLength)
    ensures |s| == 6 ==> (r.Ok? <==> forall i :: 0 <= i < 6 ==> IsHexDigit(LowerChar(s[i])))
    ensures |s| == 6 && r.Err? ==> r.error == InvalidHexDigits
    ensures r.Ok? ==> r.value.Valid() && r.value.Str() == Lower(s)
    ensures r.Ok? ==> r.value == HexColor(Lower(s)[..2], Lower(s)[2..4], Lower(s)[4..6])
  {
    if |s| != 6 then
      Err(InvalidHexLength)
    else
      var t := Lower(s);
      HexRangeIsHexDigits();
      assert CharSet(t) <= HexRange <==> forall i :: 0 <= i < 6 ==> IsHexDigit(t[i]);
      if !(CharSet(t) <= HexRange) then
        Err(InvalidHexDigits)
      else
        assert t[..2] + t[2..4] + t[4..6] == t;
        Ok(HexColor(t[..2], t[2..4], t[4..6]))
  }

  /** Parsing ignores case: `Hex("BADA55")` and `Hex("bada55")` are the same value. */
  lemma {:induction false} NewHexIgnoresCase(s: string)
    ensures NewHex(s) == NewHex(Lower(s))
  {
    LowerIdempotent(s);
    if |s| == 6 {
      var t := Lower(s);
      assert forall i :: 0 <= i < 6 ==> LowerChar(t[i]) == t[i];
    }
  }

  /** `Color.hex` of any RGB colour: a channel outside -15..255 gives a string
      that is not six characters long; otherwise a negative channel puts a '-'
      in it; otherwise each channel becomes its byte's two hex digits. */
  lemma HexOfRgb(c: RGBColor)
    ensures c.Hex() ==
      if !(-15 <= c.red <= 255 && -15 <= c.green <= 255 && -15 <= c.blue <= 255) then
        Err(InvalidHexLength)
      else if c.red < 0 || c.green < 0 || c.blue < 0 then
        Err(InvalidHexDigits)
      else
        Ok(HexColor(EncodeByte(c.red), EncodeByte(c.green), EncodeByte(c.blue)))
    ensures c.Hex().Ok? <==> InRange(c)
  {
    Format3Shape(c.red, c.green, c.blue);
    var s := Format3(c.red, c.green, c.blue);
    if InRange(c) {
      var e := EncodeByte(c.red) + EncodeByte(c.green) + EncodeByte(c.blue);
      assert e[..2] == EncodeByte(c.red) && e[2..4] == EncodeByte(c.green) && e[4..6] == EncodeByte(c.blue);
    }
  }

  /** The hex round trip: an integer RGB colour in [0, 255] formats to six
      lower-case hex digits, and decoding them gives the colour back. */
  lemma HexRoundTrip(r: int, g: int, b: int)
    requires 0 <= r <= 255 && 0 <= g <= 255 && 0 <= b <= 255
    ensures NewRGB(r as real, g as real, b as real) == Ok(RGBColor(r, g, b))
    ensures RGBColor(r, g, b).Hex().Ok?
    ensures var h := RGBColor(r, g, b).Hex().value;
      h.Valid() && h.Str() == EncodeByte(r) + EncodeByte(g) + EncodeByte(b) && h.Rgb() == RGBColor(r, g, b)
  {
    NewRGBIntegers(r, g, b);
    HexOfRgb(RGBColor(r, g, b));
    ByteRoundTrip(r);
    ByteRoundTrip(g);
    ByteRoundTrip(b);
  }

  /** A hex colour's RGB projection formats back to the same hex colour, so the
      `hex` property's override (returning the hex colour itself) agrees with
      the general `Color.hex`. */
  lemma HexOfHexRgb(h: HexColor)
    requires h.Valid()
    ensures h.Rgb().Hex() == Ok(h)
  {
    HexOfRgb(h.Rgb());
  }

  /** Two constructed hex colours compare equal (on their RGB projections)
      exactly when their lower-cased strings agree. */
  lemma HexEqualityIsCaseInsensitive(s: string, t: string)
    requires NewHex(s).Ok? && NewHex(t).Ok?
    ensures Equals(NewHex(s).value.Rgb(), NewHex(t).value.Rgb()) <==> Lower(s) == Lower(t)
  {
    var x, y := NewHex(s).value, NewHex(t).value;
    DecodePairInjective(x.red, y.red);
    DecodePairInjective(x.green, y.green);
    DecodePairInjective(x.blue, y.blue);
    if Lower(s) == Lower(t) {
      assert x.Str() == y.Str();
      assert x.Str()[..2] == x.red && y.Str()[..2] == y.red;
      assert x.Str()[2..4] == x.green && y.Str()[2..4] == y.green;
      assert x.Str()[4..] == x.blue && y.Str()[4..] == y.blue;
    }
  }

  /** Worked examples: hex colours. */
  lemma HexExamples()
    ensures NewHex("bada55").Ok? && NewHex("bada55").value.Rgb() == RGBColor(0xba, 0xda, 0x55)
    ensures NewHex("BADA55") == NewHex("bada55")
    ensures NewHex("bada5") == Err(InvalidHexLength)
    ensures NewHex("bada5g") == Err(InvalidHexDigits)
  {
    NewHexIgnoresCase("BADA55");
    assert Lower("BADA55") == "bada55";
    assert !IsHexDigit(LowerChar("bada5g"[5]));
  }

  // ---------------------------------------------------------------------------
  // Equality on the RGB projection

  /** `__eq__`: the red, green and blue channels of both projections agree. */
  function Equals(x: RGBColor, y: RGBColor): (eq: bool)
    ensures eq <==> x == y
  {
    x.red == y.red && x.green == y.green && x.blue == y.blue
  }

  /** `__ne__`: the negation of `__eq__`. */
  function NotEquals(x: RGBColor, y: RGBColor): (ne: bool)
    ensures ne <==> x != y
    ensures ne != Equals(x, y)
  {
    !Equals(x, y)
  }

  // ---------------------------------------------------------------------------
  // Blend operators, on the RGB projections of both operands

  /** `multiply`: `a * b / 255.0` per channel. */
  function Multiply(x: RGBColor, y: RGBColor): RGBColor {
    Build((x.red * y.red) as real / 255.0,
          (x.green * y.green) as real / 255.0,
          (x.blue * y.blue) as real / 255.0)
  }

  /** `add`: `min(255, a + b)` per channel. */
  function Add(x: RGBColor, y: RGBColor): RGBColor {
    Build(Min(255, x.red + y.red) as real,
          Min(255, x.green + y.green) as real,
          Min(255, x.blue + y.blue) as real)
  }

  /** `divide`: fails when `0 in other.rgb`, else `a / float(b)` per channel. */
  function Divide(x: RGBColor, y: RGBColor): Result<RGBColor> {
    if y.Contains(0.0) then
      Err(DivisionByZero)
    else
      Ok(Build(x.red as real / y.red as real,
               x.green as real / y.green as real,
               x.blue as real / y.blue as real))
  }

  /** `subtract`: `max(0, a - b)` per channel. */
  function Subtract(x: RGBColor, y: RGBColor): RGBColor {
    Build(Max(0, x.red - y.red) as real,
          Max(0, x.green - y.green) as real,
          Max(0, x.blue - y.blue) as real)
  }

  /** `screen`: `255 - (255 - a) * (255 - b) / 255.0` per channel. */
  function Screen(x: RGBColor, y: RGBColor): RGBColor {
    Build(255.0 - ((255 - x.red) * (255 - y.red)) as real / 255.0,
          255.0 - ((255 - x.green) * (255 - y.green)) as real / 255.0,
          255.0 - ((255 - x.blue) * (255 - y.blue)) as real / 255.0)
  }

  /** `difference`: `abs(a - b)` per channel. */
  function Difference(x: RGBColor, y: RGBColor): RGBColor {
    Build(Abs(x.red - y.red) as real,
          Abs(x.green - y.green) as real,
          Abs(x.blue - y.blue) as real)
  }

  /** `overlay`: `self.screen(self.multiply(other))`. */
  function Overlay(x: RGBColor, y: RGBColor): RGBColor {
    Screen(x, Multiply(x, y))
  }

  /** `invert`: `self.difference(RGBColor(255, 255, 255))`. */
  function Invert(x: RGBColor): RGBColor {
    Difference(x, Build(255.0, 255.0, 255.0))
  }

  lemma MultiplyChannel(a: int, b: int)
    requires 0 <= a <= 255 && 0 <= b <= 255
    ensures 0 <= Round((a * b) as real / 255.0) <= Min(a, b)
  {
    ProductBound(a, b);
    RoundWithin((a * b) as real / 255.0, 0, Min(a, b));
  }

  /** Multiply darkens: each channel of the result lies between 0 and the
      smaller of the two operands' channels. */
  lemma MultiplyBounds(x: RGBColor, y: RGBColor)
    requires InRange(x) && InRange(y)
    ensures InRange(Multiply(x, y))
    ensures Multiply(x, y).red <= Min(x.red, y.red)
    ensures Multiply(x, y).green <= Min(x.green, y.green)
    ensures Multiply(x, y).blue <= Min(x.blue, y.blue)
  {
    MultiplyChannel(x.red, y.red);
    MultiplyChannel(x.green, y.green);
    MultiplyChannel(x.blue, y.blue);
  }

  /** A product of two values in [0, 255] is at most 255 times the smaller. */
  lemma ProductBound(u: int, v: int)
    requires 0 <= u <= 255 && 0 <= v <= 255
    ensures 0 <= u * v <= Min(u, v) * 255
  {
    assert u * v <= u * 255 && u * v <= 255 * v;
  }

  lemma ScreenChannel(a: int, b: int)
    requires 0 <= a <= 255 && 0 <= b <= 255
    ensures Max(a, b) <= Round(255.0 - ((255 - a) * (255 - b)) as real / 255.0) <= 255
  {
    var u, v := 255 - a, 255 - b;
    ProductBound(u, v);
    assert 255 - Min(u, v) == Max(a, b);
    var q := (u * v) as real / 255.0;
    assert 0.0 <= q <= Min(u, v) as real;
    RoundWithin(255.0 - q, Max(a, b), 255);
  }

  /** Screen lightens: each channel of the result lies between the larger of
      the two operands' channels and 255. */
  lemma ScreenBounds(x: RGBColor, y: RGBColor)
    requires InRange(x) && InRange(y)
    ensures InRange(Screen(x, y))
    ensures Max(x.red, y.red) <= Screen(x, y).red
    ensures Max(x.green, y.green) <= Screen(x, y).green
    ensures Max(x.blue, y.blue) <= Screen(x, y).blue
  {
    ScreenChannel(x.red, y.red);
    ScreenChannel(x.green, y.green);
    ScreenChannel(x.blue, y.blue);
  }

  /** Overlay neither darkens the first operand nor leaves the range. */
  lemma OverlayBounds(x: RGBColor, y: RGBColor)
    requires InRange(x) && InRange(y)
    ensures InRange(Overlay(x, y))
    ensures x.red <= Overlay(x, y).red && x.green <= Overlay(x, y).green && x.blue <= Overlay(x, y).blue
  {
    MultiplyBounds(x, y);
    ScreenBounds(x, Multiply(x, y));
  }

  /** Add saturates at 255, on every input, and keeps in-range colours in range. */
  lemma AddSaturates(x: RGBColor, y: RGBColor)
    ensures Add(x, y) == RGBColor(Min(255, x.red + y.red), Min(255, x.green + y.green), Min(255, x.blue + y.blue))
    ensures InRange(x) && InRange(y) ==> InRange(Add(x, y))
  {
    NewRGBIntegers(Min(255, x.red + y.red), Min(255, x.green + y.green), Min(255, x.blue + y.blue));
  }

  /** Subtract clamps at 0, on every input, and keeps in-range colours in range. */
  lemma SubtractClamps(x: RGBColor, y: RGBColor)
    ensures Subtract(x, y) == RGBColor(Max(0, x.red - y.red), Max(0, x.green - y.green), Max(0, x.blue - y.blue))
    ensures InRange(x) && InRange(y) ==> InRange(Subtract(x, y))
  {
    NewRGBIntegers(Max(0, x.red - y.red), Max(0, x.green - y.green), Max(0, x.blue - y.blue));
  }

  /** Difference is the per-channel distance: symmetric, and in range for
      in-range operands. */
  lemma DifferenceIsDistance(x: RGBColor, y: RGBColor)
    ensures Difference(x, y) == RGBColor(Abs(x.red - y.red), Abs(x.green - y.green), Abs(x.blue - y.blue))
    ensures Difference(x, y) == Difference(y, x)
    ensures InRange(x) && InRange(y) ==> InRange(Difference(x, y))
  {
    NewRGBIntegers(Abs(x.red - y.red), Abs(x.green - y.green), Abs(x.blue - y.blue));
    NewRGBIntegers(Abs(y.red - x.red), Abs(y.green - x.green), Abs(y.blue - x.blue));
  }

  /** Invert maps each in-range channel c to 255 - c, so inverting twice gives
      the colour back. */
  lemma InvertInvolutive(x: RGBColor)
    requires InRange(x)
    ensures Invert(x) == RGBColor(255 - x.red, 255 - x.green, 255 - x.blue)
    ensures Invert(Invert(x)) == x
  {
    var white := Build(255.0, 255.0, 255.0);
    NewRGBIntegers(255, 255, 255);
    DifferenceIsDistance(x, white);
    DifferenceIsDistance(Invert(x), white);
  }

  lemma DivideChannel(a: int, b: int)
    requires 0 <= a && 1 <= b
    ensures 0 <= Round(a as real / b as real) <= a
  {
    var q := a as real / b as real;
    assert q * b as real == a as real;
    assert 0.0 <= q;
    assert q <= q * b as real;
    RoundWithin(q, 0, a);
  }

  /** Divide fails exactly when a channel of the divisor is 0; otherwise each
      channel is the rounded quotient, which for a non-negative dividend and
      a divisor channel of at least 1 is no larger than the dividend. */
  lemma DivideSpec(x: RGBColor, y: RGBColor)
    ensures Divide(x, y).Err? <==> y.red == 0 || y.green == 0 || y.blue == 0
    ensures Divide(x, y).Err? ==> Divide(x, y).error == DivisionByZero
    ensures Divide(x, y).Ok? ==>
      (Divide(x, y).value ==
         RGBColor(Round(x.red as real / y.red as real),
                  Round(x.green as real / y.green as real),
                  Round(x.blue as real / y.blue as real)))
    ensures InRange(x) && InRange(y) && Divide(x, y).Ok? ==>
      (InRange(Divide(x, y).value) &&
       Divide(x, y).value.red <= x.red && Divide(x, y).value.green <= x.green && Divide(x, y).value.blue <= x.blue)
  {
    if InRange(x) && InRange(y) && Divide(x, y).Ok? {
      DivideChannel(x.red, y.red);
      DivideChannel(x.green, y.green);
      DivideChannel(x.blue, y.blue);
    }
  }

  /** Worked examples: the operators. */
  lemma OperatorExamples()
    ensures Add(RGBColor(200, 200, 200), RGBColor(100, 100, 100)) == RGBColor(255, 255, 255)
    ensures Subtract(RGBColor(10, 10, 10), RGBColor(100, 100, 100)) == RGBColor(0, 0, 0)
    ensures Divide(RGBColor(100, 100, 100), RGBColor(0, 1, 1)) == Err(DivisionByZero)
    ensures Invert(RGBColor(255, 255, 255)) == RGBColor(0, 0, 0)
    ensures RGBColor(100, 50, 0).Channels() == [100, 50, 0]
  {
    AddSaturates(RGBColor(200, 200, 200), RGBColor(100, 100, 100));
    SubtractClamps(RGBColor(10, 10, 10), RGBColor(100, 100, 100));
    InvertInvolutive(RGBColor(255, 255, 255));
  }

  // ---------------------------------------------------------------------------
  // HSVColor

  /** An HSV colour: hue, saturation and value, in that order. */
  datatype HSVColor = HSVColor(hue: real, saturation: real, value: real) {

    /** `__iter__`: the stored channels in order. */
    function Channels(): (s: seq<real>)
      ensures |s| == 3 && s[0] == hue && s[1] == saturation && s[2] == value
    {
      [hue, saturation, value]
    }

    /** `__len__`. */
    function Len(): (n: nat)
      ensures n == 3
    {
      |Channels()|
    }

    /** `__contains__`. */
    function Contains(item: real): (b: bool)
      ensures b <==> item in Channels()
    {
      item == hue || item == saturation || item == value
    }
  }

  /** `HSVColor(h, s, v)`: saturation above 1 is rejected first, then value
      above 1; a hue of at least 1 loses its integer part, any other hue
      (negative ones included) is kept. */
  function NewHSV(h: real, s: real, v: real): (r: Result<HSVColor>)
    ensures s > 1.0 ==> r == Err(SaturationAboveOne)
    ensures s <= 1.0 && v > 1.0 ==> r == Err(ValueAboveOne)
    ensures r.Ok? <==> s <= 1.0 && v <= 1.0
    ensures r.Ok? ==> r.value.saturation == s && r.value.value == v
    ensures r.Ok? && h >= 1.0 ==>
      0.0 <= r.value.hue < 1.0 && (h - r.value.hue).Floor as real == h - r.value.hue
    ensures r.Ok? && h < 1.0 ==> r.value.hue == h
  {
    if s > 1.0 then
      Err(SaturationAboveOne)
    else if v > 1.0 then
      Err(ValueAboveOne)
    else
      Ok(HSVColor(if h >= 1.0 then h - Trunc(h) as real else h, s, v))
  }

  /** `random()`: an HSV colour from three draws of the random source, each in
      [0, 1); construction cannot fail on them. */
  function Random(dh: real, ds: real, dv: real): (r: Result<HSVColor>)
    requires 0.0 <= dh < 1.0 && 0.0 <= ds < 1.0 && 0.0 <= dv < 1.0
    ensures r == Ok(HSVColor(dh, ds, dv))
    ensures forall i :: 0 <= i < 3 ==> 0.0 <= r.value.Channels()[i] < 1.0
  {
    NewHSV(dh, ds, dv)
  }

  lemma HsvExamples()
    ensures NewHSV(0.0, 1.5, 0.0) == Err(SaturationAboveOne)
    ensures NewHSV(2.25, 1.0, 1.0) == Ok(HSVColor(0.25, 1.0, 1.0))
    ensures NewHSV(-0.5, 0.0, 0.0) == Ok(HSVColor(-0.5, 0.0, 0.0))
  {
  }

  // ---------------------------------------------------------------------------
  // ColorWheel

  /** `random() * 0.1 + 0.1`: the jitter of one wheel step. */
  predicate ValidShift(shift: real) {
    0.1 <= shift < 0.2
  }

  /** The phase `ColorWheel(start)` begins at: one subtraction of 1 for a start
      of at least 1, so only a start in [0, 2) lands in [0, 1). */
  function StartPhase(start: real): (p: real)
    ensures 0.0 <= start < 2.0 ==> 0.0 <= p < 1.0
    ensures start >= 2.0 ==> p >= 1.0
    ensures p == start || p == start - 1.0
    ensures p == start - 1.0 <==> start >= 1.0
  {
    if start >= 1.0 then start - 1.0 else start
  }

  /** One step of the wheel: add the jitter, subtract 1 when the sum reaches 1. */
  function WheelStep(phase: real, shift: real): (p: real)
    ensures 0.0 <= phase < 1.0 && 0.0 <= shift < 1.0 ==> 0.0 <= p < 1.0
    ensures p == phase + shift || p == phase + shift - 1.0
    ensures p >= 1.0 ==> p == phase + shift - 1.0
    ensures p == phase + shift - 1.0 <==> phase + shift >= 1.0
  {
    if phase + shift >= 1.0 then phase + shift - 1.0 else phase + shift
  }

  predicate AllValidShifts(shifts: seq<real>) {
    forall i :: 0 <= i < |shifts| ==> ValidShift(shifts[i])
  }

  /** The phase after one step per jitter in `shifts`, oldest first. */
  function WheelRun(phase: real, shifts: seq<real>): (p: real)
    ensures 0.0 <= phase < 1.0 && AllValidShifts(shifts) ==> 0.0 <= p < 1.0
    decreases |shifts|
  {
    if shifts == [] then phase
    else WheelStep(WheelRun(phase, shifts[..|shifts| - 1]), shifts[|shifts| - 1])
  }

  function Sum(s: seq<real>): real
    decreases |s|
  {
    if s == [] then 0.0 else Sum(s[..|s| - 1]) + s[|s| - 1]
  }

  /** However many steps are taken, the phase is the start plus all jitters,
      less a whole number of turns. */
  lemma {:induction false} WheelRunTracksShifts(phase: real, shifts: seq<real>)
    ensures var d := phase + Sum(shifts) - WheelRun(phase, shifts); d.Floor as real == d
    decreases |shifts|
  {
    if shifts != [] {
      var init := shifts[..|shifts| - 1];
      WheelRunTracksShifts(phase, init);
      var d0 := phase + Sum(init) - WheelRun(phase, init);
      var d := phase + Sum(shifts) - WheelRun(phase, shifts);
      assert d == d0 || d == d0 + 1.0;
      assert d.Floor == d0.Floor || d.Floor == d0.Floor + 1;
    }
  }

  /** `ColorWheel`: an endless source of HSV colours whose hues advance by a
      jitter of [0.1, 0.2) each step, wrapping around 1. */
  class ColorWheel {
    var phase: real

    /** The phase stays in [0, 1). */
    ghost predicate Valid()
      reads this
    {
      0.0 <= phase < 1.0
    }

    constructor (start: real)
      ensures phase == StartPhase(start)
      ensures 0.0 <= start < 2.0 ==> Valid()
    {
      var s := start;
      if s >= 1.0 {
        s := s - 1.0;
      }
      phase := s;
    }

    /** `next()` with the jitter drawn by the caller. */
    method Next(shift: real) returns (c: HSVColor)
      requires ValidShift(shift)
      modifies this
      ensures phase == WheelStep(old(phase), shift)
      ensures NewHSV(phase, 1.0, 0.8) == Ok(c)
      ensures old(Valid()) ==> Valid() && c == HSVColor(phase, 1.0, 0.8)
    {
      phase := phase + shift;
      if phase >= 1.0 {
        phase := phase - 1.0;
      }
      var r := NewHSV(phase, 1.0, 0.8);
      c := r.value;
    }
  }

  /** Steps taken one `Next` at a time follow `WheelRun`. */
  method WheelClient(start: real, s1: real, s2: real) returns (h1: real, h2: real)
    requires 0.0 <= start < 2.0 && ValidShift(s1) && ValidShift(s2)
    ensures h2 == WheelRun(StartPhase(start), [s1, s2])
    ensures 0.0 <= h1 < 1.0 && 0.0 <= h2 < 1.0
  {
    var w := new ColorWheel(start);
    var c1 := w.Next(s1);
    var c2 := w.Next(s2);
    h1, h2 := c1.hue, c2.hue;
    var p0 := StartPhase(start);
    assert [s1][..0] == [];
    assert WheelRun(p0, [s1]) == WheelStep(p0, s1);
    assert [s1, s2][..1] == [s1];
    assert WheelRun(p0, [s1, s2]) == WheelStep(WheelStep(p0, s1), s2);
  }
}
