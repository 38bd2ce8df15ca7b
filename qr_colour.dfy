/**
 * The colour helpers of the QR renderer: clamping of the gradient position, conversion
 * between "#RRGGBB"/"#RGB" strings and channel triples, and per-channel linear interpolation
 * rounded like Math.round.
 */
module QrColour {
  import opened Wrappers
  import opened JsBuiltins

  datatype Rgb = Rgb(r: int, g: int, b: int)

  predicate IsChannel(v: int) {
    0 <= v <= 255
  }

  predicate IsRgb(c: Rgb) {
    IsChannel(c.r) && IsChannel(c.g) && IsChannel(c.b)
  }

  /** Exactly six hex digits, in either case. */
  predicate IsSixHexDigits(v: string) {
    && |v| == 6
    && IsHexDigit(v[0]) && IsHexDigit(v[1]) && IsHexDigit(v[2])
    && IsHexDigit(v[3]) && IsHexDigit(v[4]) && IsHexDigit(v[5])
  }

  /** "#" followed by exactly six hex digits, in either case. */
  predicate IsHexColour(s: string) {
    && |s| == 7 && s[0] == '#'
    && IsHexDigit(s[1]) && IsHexDigit(s[2]) && IsHexDigit(s[3])
    && IsHexDigit(s[4]) && IsHexDigit(s[5]) && IsHexDigit(s[6])
  }

  /** clamp01: limits x to [0, 1] and leaves values inside the interval alone. */
  function Clamp01(x: real): (r: real)
    ensures 0.0 <= r <= 1.0
    ensures 0.0 <= x <= 1.0 ==> r == x
    ensures x < 0.0 ==> r == 0.0
    ensures x > 1.0 ==> r == 1.0
  {
    if x < 0.0 then 0.0 else if x > 1.0 then 1.0 else x
  }

  // ---------------------------------------------------------------------------
  // hexToRgb
  // ---------------------------------------------------------------------------

  /** `h.split("").map((c) => c + c).join("")`: every character written twice. */
  function DoubleEach(h: string): (d: string)
    ensures |d| == 2 * |h|
    ensures forall k :: 0 <= k < |d| ==> d[k] == h[k / 2]
  {
    if h == [] then []
    else
      var d := [h[0], h[0]] + DoubleEach(h[1..]);
      assert forall k :: 2 <= k < |d| ==> d[k] == DoubleEach(h[1..])[k - 2];
      d
  }

  /**
   * `{ r: (n >> 16) & 255, g: (n >> 8) & 255, b: n & 255 }`. The shifts work on the 32-bit
   * two's complement of n, and bits 16-23, 8-15 and 0-7 of it are `(n / 65536) % 256`,
   * `(n / 256) % 256` and `n % 256` under Euclidean division for every integer n. NaN
   * (None) converts to 0.
   */
  function Channels(n: Option<int>): (c: Rgb)
    ensures IsRgb(c)
  {
    match n
    case None => Rgb(0, 0, 0)
    case Some(v) => Rgb((v / 65536) % 256, (v / 256) % 256, v % 256)
  }

  /**
   * hexToRgb: drop the first '#', trim, expand a three-character form by doubling each
   * character, and read the rest with parseInt(_, 16).
   */
  function HexToRgb(hex: string): (c: Rgb)
    ensures IsRgb(c)
  {
    Channels(ParseInt(HexDigitsOf(hex), 16))
  }

  /** The digit string hexToRgb hands to parseInt. */
  function HexDigitsOf(hex: string): string {
    var h := Trim(RemoveFirst(hex, '#'));
    if |h| == 3 then DoubleEach(h) else h
  }

  // ---------------------------------------------------------------------------
  // rgbToHex
  // ---------------------------------------------------------------------------

  /** `x.toString(16).padStart(2, "0")`. */
  function To2(x: int): string {
    PadStart(IntToHex(x), 2, '0')
  }

  /** rgbToHex: "#" and two hex digits per channel, upper-cased. */
  function RgbToHex(c: Rgb): string {
    UpperAscii("#" + To2(c.r) + To2(c.g) + To2(c.b))
  }

  /** The upper-case hex digit of a value below 16. */
  function UpperHexChar(v: nat): char
    requires v < 16
  {
    UpperChar(LowerHexChar(v))
  }

  /** The two upper-case digits of a channel: high nibble, then low nibble. */
  function HexPair(x: int): string
    requires IsChannel(x)
  {
    [UpperHexChar(x / 16), UpperHexChar(x % 16)]
  }

  /** The seven characters rgbToHex writes for channels in range. */
  function HexChars(c: Rgb): string
    requires IsRgb(c)
  {
    "#" + HexPair(c.r) + HexPair(c.g) + HexPair(c.b)
  }

  /** An upper-case hex digit reads back as its value and is left alone by upper-casing. */
  lemma UpperHexCharValue(v: nat)
    requires v < 16
    ensures DigitValue(UpperHexChar(v)) == v && UpperChar(UpperHexChar(v)) == UpperHexChar(v)
  {
  }

  lemma UpperAsciiConcat(a: string, b: string)
    ensures UpperAscii(a + b) == UpperAscii(a) + UpperAscii(b)
  {
  }

  /** For a channel in range, the two digits are the high and the low nibble, lower case. */
  lemma To2Digits(x: int)
    requires IsChannel(x)
    ensures To2(x) == [LowerHexChar(x / 16), LowerHexChar(x % 16)]
  {
    if x < 16 {
      assert IntToHex(x) == [LowerHexChar(x)];
    } else {
      assert NatToHex(x / 16) == [LowerHexChar(x / 16)];
      assert IntToHex(x) == [LowerHexChar(x / 16), LowerHexChar(x % 16)];
    }
  }

  /** Upper-casing the two digits of a channel gives its hex pair. */
  lemma To2Upper(x: int)
    requires IsChannel(x)
    ensures UpperAscii(To2(x)) == HexPair(x)
  {
    To2Digits(x);
    UpperAsciiPair(LowerHexChar(x / 16), LowerHexChar(x % 16));
  }

  /** Upper-casing a two-character string upper-cases each character. */
  lemma UpperAsciiPair(a: char, b: char)
    ensures UpperAscii([a, b]) == [UpperChar(a), UpperChar(b)]
  {
    var u := UpperAscii([a, b]);
    assert u[0] == UpperChar(a) && u[1] == UpperChar(b);
  }

  /** The pair reads back as the channel's two nibbles and is already upper case. */
  lemma HexPairDigits(x: int)
    requires IsChannel(x)
    ensures var p := HexPair(x);
      && IsHexDigit(p[0]) && IsHexDigit(p[1])
      && DigitValue(p[0]) == x / 16 && DigitValue(p[1]) == x % 16
      && UpperAscii(p) == p
  {
    UpperHexCharValue(x / 16);
    UpperHexCharValue(x % 16);
  }

  /** For channels in range, rgbToHex gives "#" and exactly six upper-case hex digits. */
  lemma RgbToHexShape(c: Rgb)
    requires IsRgb(c)
    ensures RgbToHex(c) == HexChars(c)
    ensures IsHexColour(RgbToHex(c)) && UpperAscii(RgbToHex(c)) == RgbToHex(c)
  {
    RgbToHexIsHexChars(c);
    HexCharsIsHexColour(c);
  }

  lemma RgbToHexIsHexChars(c: Rgb)
    requires IsRgb(c)
    ensures RgbToHex(c) == HexChars(c)
  {
    var r, g, b := To2(c.r), To2(c.g), To2(c.b);
    UpperAsciiConcat("#" + r + g, b);
    UpperAsciiConcat("#" + r, g);
    UpperAsciiConcat("#", r);
    To2Upper(c.r);
    To2Upper(c.g);
    To2Upper(c.b);
    UpperAsciiHash();
  }

  lemma UpperAsciiHash()
    ensures UpperAscii("#") == "#"
  {
    assert UpperAscii("#")[0] == '#';
  }

  lemma HexCharsIsHexColour(c: Rgb)
    requires IsRgb(c)
    ensures IsHexColour(HexChars(c)) && UpperAscii(HexChars(c)) == HexChars(c)
  {
    var pr, pg, pb := HexPair(c.r), HexPair(c.g), HexPair(c.b);
    HexPairDigits(c.r);
    HexPairDigits(c.g);
    HexPairDigits(c.b);
    UpperAsciiConcat("#" + pr + pg, pb);
    UpperAsciiConcat("#" + pr, pg);
    UpperAsciiConcat("#", pr);
    HexCharsAt(c);
  }

  lemma HexCharsAt(c: Rgb)
    requires IsRgb(c)
    ensures var h := HexChars(c);
      |h| == 7 && h[0] == '#' && h[1] == HexPair(c.r)[0] && h[2] == HexPair(c.r)[1]
      && h[3] == HexPair(c.g)[0] && h[4] == HexPair(c.g)[1]
      && h[5] == HexPair(c.b)[0] && h[6] == HexPair(c.b)[1]
  {
  }

  // ---------------------------------------------------------------------------
  // Reading six hex digits
  // ---------------------------------------------------------------------------

  lemma DigitsValueSnoc(ds: string, k: nat, radix: nat)
    requires k < |ds|
    ensures DigitsValue(ds[..k + 1], radix) == DigitsValue(ds[..k], radix) * radix + DigitValue(ds[k])
  {
    assert ds[..k + 1][..k] == ds[..k];
  }

  /** A hex digit is no white space and no sign. */
  lemma HexDigitIsPlain(c: char)
    requires IsHexDigit(c)
    ensures !IsJsWhiteSpace(c) && c != '-' && c != '+' && c != 'x' && c != 'X'
  {
  }

  /** The byte two hex digits denote. */
  function Byte(hi: char, lo: char): (v: int)
    requires IsHexDigit(hi) && IsHexDigit(lo)
    ensures IsChannel(v)
  {
    16 * DigitValue(hi) + DigitValue(lo)
  }

  /** The value of six hex digits, as three bytes. */
  lemma SixDigitsValue(v: string)
    requires IsSixHexDigits(v)
    ensures DigitsValue(v, 16) == Byte(v[0], v[1]) * 65536 + Byte(v[2], v[3]) * 256 + Byte(v[4], v[5])
  {
    SixDigitsHorner(v);
    HornerBytes(DigitValue(v[0]), DigitValue(v[1]), DigitValue(v[2]), DigitValue(v[3]), DigitValue(v[4]), DigitValue(v[5]), DigitsValue(v, 16));
  }

  /** Six digits read most significant first, one at a time. */
  lemma SixDigitsHorner(v: string)
    requires |v| == 6
    ensures DigitsValue(v, 16) ==
      ((((DigitValue(v[0]) * 16 + DigitValue(v[1])) * 16 + DigitValue(v[2])) * 16 + DigitValue(v[3])) * 16 + DigitValue(v[4])) * 16 + DigitValue(v[5])
  {
    DigitsValueSnoc(v, 0, 16);
    DigitsValueSnoc(v, 1, 16);
    DigitsValueSnoc(v, 2, 16);
    DigitsValueSnoc(v, 3, 16);
    DigitsValueSnoc(v, 4, 16);
    DigitsValueSnoc(v, 5, 16);
    assert v[..6] == v;
    assert v[..0] == [];
  }

  /** Six base-16 digits read most significant first are three bytes of two digits each. */
  lemma HornerBytes(a: int, b: int, c: int, d: int, e: int, f: int, n: int)
    requires n == ((((a * 16 + b) * 16 + c) * 16 + d) * 16 + e) * 16 + f
    ensures n == (16 * a + b) * 65536 + (16 * c + d) * 256 + (16 * e + f)
  {
  }

  /** The shifts and masks of hexToRgb take a 24-bit value apart into its three bytes. */
  lemma ChannelsOfBytes(hi: int, mid: int, lo: int)
    requires IsChannel(hi) && IsChannel(mid) && IsChannel(lo)
    ensures Channels(Some(hi * 65536 + mid * 256 + lo)) == Rgb(hi, mid, lo)
  {
    var n := hi * 65536 + mid * 256 + lo;
    assert n / 65536 == hi;
    assert n / 256 == hi * 256 + mid;
  }

  /** parseInt(_, 16) of six hex digits reads all of them. */
  lemma ParseSixDigits(v: string)
    requires IsSixHexDigits(v)
    ensures ParseInt(v, 16) == Some(DigitsValue(v, 16))
  {
    HexDigitIsPlain(v[0]);
    HexDigitIsPlain(v[1]);
    assert TrimStart(v) == v;
    var ds := DigitPrefix(v, 16);
    assert |ds| < |v| ==> IsHexDigit(v[|ds|]);
    assert ds == v;
  }

  /** For "#RRGGBB", hexToRgb parses exactly the six digits after the '#'. */
  lemma HexDigitsOfColour(s: string)
    requires IsHexColour(s)
    ensures HexDigitsOf(s) == s[1..] && IsSixHexDigits(s[1..])
  {
    HashThenDigits(s);
  }

  lemma ParseSixDigitsTo(v: string, n: int)
    requires IsSixHexDigits(v) && DigitsValue(v, 16) == n
    ensures ParseInt(v, 16) == Some(n)
  {
    ParseSixDigits(v);
  }

  /** parseInt(_, 16) of six hex digits is the 24-bit value of their three digit pairs. */
  lemma ParseSixBytes(v: string, hi: int, mid: int, lo: int)
    requires IsSixHexDigits(v)
    requires hi == Byte(v[0], v[1]) && mid == Byte(v[2], v[3]) && lo == Byte(v[4], v[5])
    ensures ParseInt(v, 16) == Some(hi * 65536 + mid * 256 + lo)
  {
    SixDigitsValue(v);
    ParseSixDigitsTo(v, hi * 65536 + mid * 256 + lo);
  }

  /** Six hex digits parse to the colour whose bytes are their three pairs. */
  lemma SixDigitsChannels(v: string, hi: int, mid: int, lo: int)
    requires IsSixHexDigits(v)
    requires hi == Byte(v[0], v[1]) && mid == Byte(v[2], v[3]) && lo == Byte(v[4], v[5])
    ensures Channels(ParseInt(v, 16)) == Rgb(hi, mid, lo)
  {
    ParseSixBytes(v, hi, mid, lo);
    ChannelsOfParsed(ParseInt(v, 16), hi, mid, lo);
  }

  lemma ChannelsOfParsed(p: Option<int>, hi: int, mid: int, lo: int)
    requires IsChannel(hi) && IsChannel(mid) && IsChannel(lo)
    requires p == Some(hi * 65536 + mid * 256 + lo)
    ensures Channels(p) == Rgb(hi, mid, lo)
  {
    ChannelsOfBytes(hi, mid, lo);
  }

  /** hexToRgb of a "#RRGGBB" string reads the three digit pairs. */
  lemma HexColourChannels(s: string)
    requires IsHexColour(s)
    ensures HexToRgb(s) == Rgb(Byte(s[1], s[2]), Byte(s[3], s[4]), Byte(s[5], s[6]))
  {
    var v := s[1..];
    HexDigitsOfColour(s);
    assert v[0] == s[1] && v[1] == s[2] && v[2] == s[3] && v[3] == s[4] && v[4] == s[5] && v[5] == s[6];
    SixDigitsChannels(v, Byte(s[1], s[2]), Byte(s[3], s[4]), Byte(s[5], s[6]));
  }

  /** hexToRgb inverts rgbToHex on channels in 0..255. */
  lemma HexRoundTrip(c: Rgb)
    requires IsRgb(c)
    ensures HexToRgb(RgbToHex(c)) == c
  {
    RgbToHexIsHexChars(c);
    HexCharsRoundTrip(c, HexChars(c));
  }

  /** The two digits of a channel's pair denote the channel again. */
  lemma ByteOfPair(x: int)
    requires IsChannel(x)
    ensures IsHexDigit(HexPair(x)[0]) && IsHexDigit(HexPair(x)[1])
    ensures Byte(HexPair(x)[0], HexPair(x)[1]) == x
  {
    HexPairDigits(x);
  }

  lemma HexCharsRoundTrip(c: Rgb, h: string)
    requires IsRgb(c) && h == HexChars(c)
    ensures HexToRgb(h) == c
  {
    HexCharsIsHexColour(c);
    HexCharsAt(c);
    ByteOfPair(c.r);
    ByteOfPair(c.g);
    ByteOfPair(c.b);
    HexColourChannels(h);
  }

  lemma UpperHexCharOfDigit(ch: char)
    requires IsHexDigit(ch)
    ensures UpperHexChar(DigitValue(ch)) == UpperChar(ch)
  {
  }

  /** rgbToHex inverts hexToRgb on "#RRGGBB" strings, up to upper-casing. */
  lemma HexCanonical(s: string)
    requires IsHexColour(s)
    ensures RgbToHex(HexToRgb(s)) == UpperAscii(s)
  {
    HexColourChannels(s);
    RgbToHexIsHexChars(HexToRgb(s));
    HexCharsOfBytes(s, HexToRgb(s));
  }

  /** Writing back the bytes of a "#RRGGBB" string gives the string upper-cased. */
  lemma HexCharsOfBytes(s: string, c: Rgb)
    requires IsHexColour(s)
    requires c == Rgb(Byte(s[1], s[2]), Byte(s[3], s[4]), Byte(s[5], s[6]))
    ensures HexChars(c) == UpperAscii(s)
  {
    PairOfByte(s[1], s[2]);
    PairOfByte(s[3], s[4]);
    PairOfByte(s[5], s[6]);
    var u := UpperAscii(s);
    assert u == "#" + [u[1], u[2]] + [u[3], u[4]] + [u[5], u[6]];
  }

  /** The pair written for the byte of two hex digits is those digits upper-cased. */
  lemma PairOfByte(a: char, b: char)
    requires IsHexDigit(a) && IsHexDigit(b)
    ensures HexPair(Byte(a, b)) == [UpperChar(a), UpperChar(b)]
  {
    UpperHexCharOfDigit(a);
    UpperHexCharOfDigit(b);
    assert Byte(a, b) / 16 == DigitValue(a);
    assert Byte(a, b) % 16 == DigitValue(b);
  }

  /** hexToRgb reads "#RGB" as "#RRGGBB": each digit doubled, so each channel is 17 times the digit. */
  lemma ShortHexDoubles(s: string)
    requires |s| == 4 && s[0] == '#' && IsHexDigit(s[1]) && IsHexDigit(s[2]) && IsHexDigit(s[3])
    ensures HexToRgb(s) == HexToRgb(['#', s[1], s[1], s[2], s[2], s[3], s[3]])
    ensures HexToRgb(s) == Rgb(17 * DigitValue(s[1]), 17 * DigitValue(s[2]), 17 * DigitValue(s[3]))
  {
    var long := ['#', s[1], s[1], s[2], s[2], s[3], s[3]];
    ShortHexExpands(s, long);
    DoubledDigitsChannels(s[1], s[2], s[3], long);
  }

  lemma ShortHexExpands(s: string, long: string)
    requires |s| == 4 && s[0] == '#' && IsHexDigit(s[1]) && IsHexDigit(s[2]) && IsHexDigit(s[3])
    requires long == ['#', s[1], s[1], s[2], s[2], s[3], s[3]]
    ensures HexToRgb(s) == HexToRgb(long)
  {
    ShortHexDigits(s);
    LongDigits(long, s[1], s[2], s[3]);
    SameDigitsSameRgb(s, long);
  }

  /** hexToRgb hands parseInt the six digits after the "#" of a doubled colour. */
  lemma LongDigits(long: string, a: char, b: char, c: char)
    requires IsHexDigit(a) && IsHexDigit(b) && IsHexDigit(c) && long == ['#', a, a, b, b, c, c]
    ensures HexDigitsOf(long) == [a, a, b, b, c, c]
  {
    assert long[1..] == [a, a, b, b, c, c];
    HexDigitsOfColour(long);
  }

  lemma DoubledDigitsChannels(a: char, b: char, c: char, long: string)
    requires IsHexDigit(a) && IsHexDigit(b) && IsHexDigit(c) && long == ['#', a, a, b, b, c, c]
    ensures HexToRgb(long) == Rgb(17 * DigitValue(a), 17 * DigitValue(b), 17 * DigitValue(c))
  {
    HexColourIs(long, 17 * DigitValue(a), 17 * DigitValue(b), 17 * DigitValue(c));
  }

  /** The colour of "#RRGGBB" given the bytes of its pairs. */
  lemma HexColourIs(s: string, r: int, g: int, b: int)
    requires IsHexColour(s) && Byte(s[1], s[2]) == r && Byte(s[3], s[4]) == g && Byte(s[5], s[6]) == b
    ensures HexToRgb(s) == Rgb(r, g, b)
  {
    HexColourChannels(s);
  }

  /** The digits parsed for "#RGB" are those of "#RRGGBB". */
  lemma ShortHexDigits(s: string)
    requires |s| == 4 && s[0] == '#' && IsHexDigit(s[1]) && IsHexDigit(s[2]) && IsHexDigit(s[3])
    ensures HexDigitsOf(s) == [s[1], s[1], s[2], s[2], s[3], s[3]]
  {
    HashThenDigits(s);
    var h := s[1..];
    DoubleThree(h);
    assert h[0] == s[1] && h[1] == s[2] && h[2] == s[3];
  }

  lemma DoubleThree(h: string)
    requires |h| == 3
    ensures DoubleEach(h) == [h[0], h[0], h[1], h[1], h[2], h[2]]
  {
    var d := DoubleEach(h);
    assert d[0] == h[0] && d[1] == h[0] && d[2] == h[1] && d[3] == h[1] && d[4] == h[2] && d[5] == h[2];
  }

  /** Dropping the leading '#' and trimming leaves a string that starts and ends with a digit alone. */
  lemma HashThenDigits(s: string)
    requires |s| >= 2 && s[0] == '#' && IsHexDigit(s[1]) && IsHexDigit(s[|s| - 1])
    ensures Trim(RemoveFirst(s, '#')) == s[1..]
  {
    var h := s[1..];
    assert RemoveFirst(s, '#') == h;
    HexDigitIsPlain(h[0]);
    HexDigitIsPlain(h[|h| - 1]);
    TrimOfTrimmed(h);
  }

  lemma SameDigitsSameRgb(a: string, b: string)
    requires HexDigitsOf(a) == HexDigitsOf(b)
    ensures HexToRgb(a) == HexToRgb(b)
  {
  }

  // ---------------------------------------------------------------------------
  // lerp, Math.round, lerpColorHex
  // ---------------------------------------------------------------------------

  /** lerp: the point at fraction t of the way from a to b. */
  function Lerp(a: real, b: real, t: real): (v: real)
    ensures t == 0.0 ==> v == a
    ensures t == 1.0 ==> v == b
    ensures 0.0 <= t <= 1.0 && a <= b ==> a <= v <= b
    ensures 0.0 <= t <= 1.0 && b <= a ==> b <= v <= a
  {
    var v := a + (b - a) * t;
    LerpBetween(a, b, t, v);
    v
  }

  lemma LerpBetween(a: real, b: real, t: real, v: real)
    requires v == a + (b - a) * t
    ensures 0.0 <= t <= 1.0 && a <= b ==> a <= v <= b
    ensures 0.0 <= t <= 1.0 && b <= a ==> b <= v <= a
  {
    if 0.0 <= t <= 1.0 {
      var d := b - a;
      if a <= b {
        MulNonNegative(d, t);
        MulNonNegative(d, 1.0 - t);
        assert d * (1.0 - t) == d - d * t;
      } else {
        MulNonNegative(-d, t);
        MulNonNegative(-d, 1.0 - t);
        assert (-d) * t == -(d * t);
        assert (-d) * (1.0 - t) == d * t - d;
      }
    }
  }

  lemma MulNonNegative(x: real, y: real)
    requires 0.0 <= x && 0.0 <= y
    ensures 0.0 <= x * y
  {
  }

  /** Math.round on an exact value: the nearest integer, halves rounded toward +infinity. */
  function Round(x: real): (k: int)
    ensures k as real - 0.5 <= x < k as real + 0.5
  {
    (x + 0.5).Floor
  }

  /** One channel of lerpColorHex: `Math.round(lerp(a, b, t))`. */
  function LerpChannel(a: int, b: int, t: real): int {
    Round(Lerp(a as real, b as real, t))
  }

  function LerpRgb(a: Rgb, b: Rgb, t: real): Rgb {
    Rgb(LerpChannel(a.r, b.r, t), LerpChannel(a.g, b.g, t), LerpChannel(a.b, b.b, t))
  }

  /** lerpColorHex: interpolate both anchors channel by channel and write the result as hex. */
  function LerpColorHex(fromHex: string, toHex: string, t: real): string {
    RgbToHex(LerpRgb(HexToRgb(fromHex), HexToRgb(toHex), t))
  }

  /** An interpolated channel lies between its anchors, and is the anchor at either end. */
  lemma LerpChannelBetween(a: int, b: int, t: real)
    requires 0.0 <= t <= 1.0
    ensures a <= LerpChannel(a, b, t) <= b || b <= LerpChannel(a, b, t) <= a
    ensures t == 0.0 ==> LerpChannel(a, b, t) == a
    ensures t == 1.0 ==> LerpChannel(a, b, t) == b
  {
  }

  /** As t grows a channel moves only toward its target anchor. */
  lemma LerpChannelMonotone(a: int, b: int, t1: real, t2: real)
    requires 0.0 <= t1 <= t2 <= 1.0
    ensures a <= b ==> LerpChannel(a, b, t1) <= LerpChannel(a, b, t2)
    ensures b <= a ==> LerpChannel(a, b, t2) <= LerpChannel(a, b, t1)
  {
    var d := (b - a) as real;
    assert d * t2 - d * t1 == d * (t2 - t1);
    if a <= b {
      MulNonNegative(d, t2 - t1);
      RoundMonotone(Lerp(a as real, b as real, t1), Lerp(a as real, b as real, t2));
    } else {
      MulNonNegative(-d, t2 - t1);
      assert (-d) * (t2 - t1) == -(d * (t2 - t1));
      RoundMonotone(Lerp(a as real, b as real, t2), Lerp(a as real, b as real, t1));
    }
  }

  lemma RoundMonotone(x: real, y: real)
    requires x <= y
    ensures Round(x) <= Round(y)
  {
  }

  /** For t in [0, 1] every channel of the mix lies between the anchors, so it is a valid channel. */
  lemma LerpRgbBetween(a: Rgb, b: Rgb, t: real)
    requires IsRgb(a) && IsRgb(b) && 0.0 <= t <= 1.0
    ensures IsRgb(LerpRgb(a, b, t))
  {
    LerpChannelBetween(a.r, b.r, t);
    LerpChannelBetween(a.g, b.g, t);
    LerpChannelBetween(a.b, b.b, t);
  }

  /** For t in [0, 1] lerpColorHex always yields "#" and six upper-case hex digits. */
  lemma LerpColorHexIsHexColour(fromHex: string, toHex: string, t: real)
    requires 0.0 <= t <= 1.0
    ensures IsHexColour(LerpColorHex(fromHex, toHex, t))
    ensures UpperAscii(LerpColorHex(fromHex, toHex, t)) == LerpColorHex(fromHex, toHex, t)
  {
    LerpRgbBetween(HexToRgb(fromHex), HexToRgb(toHex), t);
    RgbToHexShape(LerpRgb(HexToRgb(fromHex), HexToRgb(toHex), t));
  }

  /** At t = 0 lerpColorHex gives the first anchor, at t = 1 the second, both upper-cased. */
  lemma LerpColorHexEndpoints(fromHex: string, toHex: string)
    requires IsHexColour(fromHex) && IsHexColour(toHex)
    ensures LerpColorHex(fromHex, toHex, 0.0) == UpperAscii(fromHex)
    ensures LerpColorHex(fromHex, toHex, 1.0) == UpperAscii(toHex)
  {
    var a, b := HexToRgb(fromHex), HexToRgb(toHex);
    LerpChannelBetween(a.r, b.r, 0.0);
    LerpChannelBetween(a.g, b.g, 0.0);
    LerpChannelBetween(a.b, b.b, 0.0);
    LerpChannelBetween(a.r, b.r, 1.0);
    LerpChannelBetween(a.g, b.g, 1.0);
    LerpChannelBetween(a.b, b.b, 1.0);
    assert LerpRgb(a, b, 0.0) == a;
    assert LerpRgb(a, b, 1.0) == b;
    HexCanonical(fromHex);
    HexCanonical(toHex);
  }

  /** For t in [0, 1] the string lerpColorHex writes reads back as the interpolated channels. */
  lemma LerpColorHexChannels(fromHex: string, toHex: string, t: real)
    requires 0.0 <= t <= 1.0
    ensures HexToRgb(LerpColorHex(fromHex, toHex, t)) == LerpRgb(HexToRgb(fromHex), HexToRgb(toHex), t)
  {
    var c := LerpRgb(HexToRgb(fromHex), HexToRgb(toHex), t);
    LerpRgbBetween(HexToRgb(fromHex), HexToRgb(toHex), t);
    HexRoundTrip(c);
  }

  /**
   * As t grows, every channel of the colour lerpColorHex writes moves only toward the channel
   * of the second anchor.
   */
  lemma LerpColorHexMonotone(fromHex: string, toHex: string, t1: real, t2: real)
    requires 0.0 <= t1 <= t2 <= 1.0
    ensures var a, b := HexToRgb(fromHex), HexToRgb(toHex);
      var c1, c2 := HexToRgb(LerpColorHex(fromHex, toHex, t1)), HexToRgb(LerpColorHex(fromHex, toHex, t2));
      && (a.r <= b.r ==> c1.r <= c2.r) && (b.r <= a.r ==> c2.r <= c1.r)
      && (a.g <= b.g ==> c1.g <= c2.g) && (b.g <= a.g ==> c2.g <= c1.g)
      && (a.b <= b.b ==> c1.b <= c2.b) && (b.b <= a.b ==> c2.b <= c1.b)
  {
    var a, b := HexToRgb(fromHex), HexToRgb(toHex);
    LerpColorHexChannels(fromHex, toHex, t1);
    LerpColorHexChannels(fromHex, toHex, t2);
    LerpChannelMonotone(a.r, b.r, t1, t2);
    LerpChannelMonotone(a.g, b.g, t1, t2);
    LerpChannelMonotone(a.b, b.b, t1, t2);
  }

  /** At t = 1 lerpColorHex gives the second anchor, when that is already upper-case. */
  lemma LerpColorHexAtOne(fromHex: string, toHex: string, t: real)
    requires IsHexColour(fromHex) && IsHexColour(toHex) && UpperAscii(toHex) == toHex && t == 1.0
    ensures LerpColorHex(fromHex, toHex, t) == toHex
  {
    LerpColorHexEndpoints(fromHex, toHex);
  }

  /** At t = 0 lerpColorHex gives the first anchor, when that is already upper-case. */
  lemma LerpColorHexAtZero(fromHex: string, toHex: string, t: real)
    requires IsHexColour(fromHex) && IsHexColour(toHex) && UpperAscii(fromHex) == fromHex && t == 0.0
    ensures LerpColorHex(fromHex, toHex, t) == fromHex
  {
    LerpColorHexEndpoints(fromHex, toHex);
  }
}
