/** Hexadecimal digits, ASCII lower-casing, one byte as two hex digits, and
    Python's `'%02x'` formatting of an integer: the pieces both versions of the
    library use to turn a colour into a six-character hex string and back. */
module HexCodec {

  /** `HEX_RANGE`: the characters a hex colour may contain after lower-casing. */
  const HexRange: set<char> :=
    {'0', '1', '2', '3', '4', '5', '6', '7', '8', '9', 'a', 'b', 'c', 'd', 'e', 'f'}

  /** A lower-case hexadecimal digit. */
  predicate IsHexDigit(c: char) {
    '0' <= c <= '9' || 'a' <= c <= 'f'
  }

  lemma HexRangeIsHexDigits()
    ensures forall c :: c in HexRange <==> IsHexDigit(c)
  {
  }

  /** `str.lower()` on one character of a byte string: only A-Z change. */
  function LowerChar(c: char): (l: char)
    ensures !('A' <= l <= 'Z')
    ensures !('A' <= c <= 'Z') ==> l == c
    ensures IsHexDigit(l) <==> IsHexDigit(c) || 'A' <= c <= 'F'
    ensures 'A' <= c <= 'Z' ==> l as int == c as int + ('a' as int - 'A' as int)
  {
    if 'A' <= c <= 'Z' then (c as int - 'A' as int + 'a' as int) as char else c
  }

  /** `str.lower()` on a byte string. */
  function Lower(s: string): (t: string)
    ensures |t| == |s|
    ensures forall i :: 0 <= i < |s| ==> t[i] == LowerChar(s[i])
  {
    seq(|s|, i requires 0 <= i < |s| => LowerChar(s[i]))
  }

  /** Lower-casing is idempotent. */
  lemma LowerIdempotent(s: string)
    ensures Lower(Lower(s)) == Lower(s)
  {
    var t := Lower(s);
    assert forall i :: 0 <= i < |t| ==> Lower(t)[i] == t[i];
  }

  /** Lower-casing leaves a string of hex digits and minus signs alone. */
  lemma LowerFixesHexDigits(s: string)
    requires forall i :: 0 <= i < |s| ==> IsHexDigit(s[i]) || s[i] == '-'
    ensures Lower(s) == s
  {
    assert forall i :: 0 <= i < |s| ==> Lower(s)[i] == s[i];
  }

  /** The hex digit for a value in [0, 16). */
  function Digit(d: int): (c: char)
    requires 0 <= d < 16
    ensures IsHexDigit(c)
  {
    if d < 10 then ('0' as int + d) as char else ('a' as int + d - 10) as char
  }

  /** The value of one hex digit, as `int(c, 16)` computes it. */
  function DigitValue(c: char): (d: int)
    requires IsHexDigit(c)
    ensures 0 <= d < 16
    ensures Digit(d) == c
  {
    if c <= '9' then c as int - '0' as int else c as int - 'a' as int + 10
  }

  lemma DigitRoundTrip(d: int)
    requires 0 <= d < 16
    ensures DigitValue(Digit(d)) == d
  {
  }

  /** Two lower-case hex digits: one stored channel of a hex colour. */
  predicate IsHexPair(p: string) {
    |p| == 2 && IsHexDigit(p[0]) && IsHexDigit(p[1])
  }

  /** One byte as two lower-case hex digits, high nibble first. */
  function EncodeByte(n: int): (p: string)
    requires 0 <= n < 256
    ensures IsHexPair(p)
  {
    [Digit(n / 16), Digit(n % 16)]
  }

  /** `int(p, 16)` for a two-digit pair. */
  function DecodePair(p: string): (n: int)
    requires IsHexPair(p)
    ensures 0 <= n < 256
    ensures EncodeByte(n) == p
  {
    16 * DigitValue(p[0]) + DigitValue(p[1])
  }

  lemma ByteRoundTrip(n: int)
    requires 0 <= n < 256
    ensures DecodePair(EncodeByte(n)) == n
  {
    DigitRoundTrip(n / 16);
    DigitRoundTrip(n % 16);
  }

  /** Two pairs are equal exactly when they decode to the same byte. */
  lemma DecodePairInjective(p: string, q: string)
    requires IsHexPair(p) && IsHexPair(q)
    ensures DecodePair(p) == DecodePair(q) <==> p == q
  {
  }

  /** `'%x' % n` for a non-negative integer: its digits, most significant first,
      without leading zeros. */
  function HexDigits(n: nat): (s: string)
    ensures 1 <= |s|
    ensures forall i :: 0 <= i < |s| ==> IsHexDigit(s[i])
    decreases n
  {
    if n < 16 then [Digit(n)] else HexDigits(n / 16) + [Digit(n % 16)]
  }

  lemma {:induction false} HexDigitsLength(n: nat)
    ensures |HexDigits(n)| == 1 <==> n < 16
    ensures |HexDigits(n)| == 2 <==> 16 <= n < 256
    ensures 16 <= n < 256 ==> HexDigits(n) == EncodeByte(n)
  {
    if n >= 16 {
      HexDigitsLength(n / 16);
    }
  }

  /** Python's `'%02x' % n` for an integer: at least two characters, zero-padded
      on the left; a negative number is written as '-' and the digits of its
      magnitude (the sign already fills the width of two). */
  function Format02x(n: int): string {
    if n >= 0 then
      var d := HexDigits(n);
      if |d| < 2 then "0" + d else d
    else
      "-" + HexDigits(-n)
  }

  /** What `'%02x' % n` looks like: exactly two characters only for -15..255,
      all hex digits only for non-negative n, and for a byte it is `EncodeByte`. */
  lemma Format02xShape(n: int)
    ensures |Format02x(n)| >= 2
    ensures |Format02x(n)| == 2 <==> -15 <= n <= 255
    ensures 0 <= n <= 255 ==> Format02x(n) == EncodeByte(n)
    ensures (forall i :: 0 <= i < |Format02x(n)| ==> IsHexDigit(Format02x(n)[i])) <==> n >= 0
    ensures forall i :: 0 <= i < |Format02x(n)| ==> IsHexDigit(Format02x(n)[i]) || Format02x(n)[i] == '-'
    ensures Lower(Format02x(n)) == Format02x(n)
  {
    var f := Format02x(n);
    if n >= 0 {
      HexDigitsLength(n);
      if n < 16 {
        assert f == [Digit(0), Digit(n)];
      }
    } else {
      HexDigitsLength(-n);
      assert f[0] == '-';
    }
    LowerFixesHexDigits(f);
  }

  /** `'%02x%02x%02x' % (r, g, b)`. */
  function Format3(r: int, g: int, b: int): string {
    Format02x(r) + Format02x(g) + Format02x(b)
  }

  /** The string a colour formats to is six characters long only when every
      channel lies in -15..255; then it is already lower-case, it is all hex
      digits only when no channel is negative, and in that case it is the
      three bytes' pairs. */
  lemma Format3Shape(r: int, g: int, b: int)
    ensures |Format3(r, g, b)| == 6 <==> -15 <= r <= 255 && -15 <= g <= 255 && -15 <= b <= 255
    ensures |Format3(r, g, b)| == 6 ==> Lower(Format3(r, g, b)) == Format3(r, g, b)
    ensures |Format3(r, g, b)| == 6 ==>
      ((forall i :: 0 <= i < 6 ==> IsHexDigit(Format3(r, g, b)[i])) <==> r >= 0 && g >= 0 && b >= 0)
    ensures 0 <= r <= 255 && 0 <= g <= 255 && 0 <= b <= 255 ==>
      Format3(r, g, b) == EncodeByte(r) + EncodeByte(g) + EncodeByte(b)
  {
    var fr, fg, fb := Format02x(r), Format02x(g), Format02x(b);
    Format02xShape(r);
    Format02xShape(g);
    Format02xShape(b);
    var s := fr + fg + fb;
    if |s| == 6 {
      assert |fr| == 2 && |fg| == 2 && |fb| == 2;
      assert forall i :: 0 <= i < 6 ==> IsHexDigit(s[i]) || s[i] == '-';
      LowerFixesHexDigits(s);
      if r < 0 {
        assert !IsHexDigit(s[0]);
      } else if g < 0 {
        assert !IsHexDigit(s[2]);
      } else if b < 0 {
        assert !IsHexDigit(s[4]);
      } else {
        assert forall i :: 0 <= i < 6 ==> IsHexDigit(s[i]);
      }
    }
  }
}
