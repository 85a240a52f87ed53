/** Colours as an RGB triple, a '#'-prefixed hexadecimal string and a display name, with the
    conversions between the two notations (model/Color.java). */
module Colors {
  import opened Wrappers
  import opened JavaInt

  /** The `Map.of("r", r, "g", g, "b", b)` the Java class stores. */
  datatype Rgb = Rgb(r: int, g: int, b: int)

  /** A colour; the constructors below are the only way the source builds one. */
  datatype Color = Color(rgb: Rgb, hex: string, name: string)

  const InvalidHexMessage := "Invalid hexadecimal color string: "

  /** `[a-fA-F\d]`: Java's `\d` matches the ASCII digits only. */
  predicate IsHexDigit(c: char) {
    '0' <= c <= '9' || 'a' <= c <= 'f' || 'A' <= c <= 'F'
  }

  predicate IsLowerHexDigit(c: char) {
    '0' <= c <= '9' || 'a' <= c <= 'f'
  }

  predicate AllHexDigits(s: string) {
    forall i :: 0 <= i < |s| ==> IsHexDigit(s[i])
  }

  /** The value of one hexadecimal digit, either case. */
  function HexValue(c: char): (v: nat)
    requires IsHexDigit(c)
    ensures v < 16
  {
    if '0' <= c <= '9' then c as int - '0' as int
    else if 'a' <= c <= 'f' then c as int - 'a' as int + 10
    else c as int - 'A' as int + 10
  }

  /** The lower-case digit of a value below 16 (what `%x` prints). */
  function LowerHexDigit(v: nat): (c: char)
    requires v < 16
    ensures IsLowerHexDigit(c) && IsHexDigit(c) && HexValue(c) == v
  {
    if v < 10 then ('0' as int + v) as char else ('a' as int + v - 10) as char
  }

  /** The lower-case form of a hexadecimal digit. */
  function ToLowerHex(c: char): (l: char)
    requires IsHexDigit(c)
    ensures IsLowerHexDigit(l) && HexValue(l) == HexValue(c)
  {
    LowerHexDigit(HexValue(c))
  }

  /** The text after one optional leading '#'. */
  function HexBody(s: string): string {
    if |s| > 0 && s[0] == '#' then s[1..] else s
  }

  /** `^#?([a-fA-F\d]{2})([a-fA-F\d]{2})([a-fA-F\d]{2})$` matches the whole string. */
  predicate MatchesHexPattern(s: string) {
    (|s| == 6 && AllHexDigits(s)) || (|s| == 7 && s[0] == '#' && AllHexDigits(s[1..]))
  }

  /** `Integer.parseInt(group, 16)` of a two-digit group. */
  function ParseHexPair(hi: char, lo: char): (v: nat)
    requires IsHexDigit(hi) && IsHexDigit(lo)
    ensures v <= 255
  {
    16 * HexValue(hi) + HexValue(lo)
  }

  /** `hexToRgb`: accepts exactly one optional '#' and six hexadecimal digits of either case,
      parses each two-digit group to a channel in 0..255, and otherwise throws an
      invalid-argument error naming the string. */
  function HexToRgb(s: string): (r: Result<Rgb>)
    ensures r.Ok? <==> MatchesHexPattern(s)
    ensures r.Ok? ==> 0 <= r.value.r <= 255 && 0 <= r.value.g <= 255 && 0 <= r.value.b <= 255
    ensures r.Err? ==> r.error == InvalidArgument(InvalidHexMessage + s)
  {
    var d := HexBody(s);
    if |d| == 6 && AllHexDigits(d) then
      Ok(Rgb(ParseHexPair(d[0], d[1]), ParseHexPair(d[2], d[3]), ParseHexPair(d[4], d[5])))
    else
      Err(InvalidArgument(InvalidHexMessage + s))
  }

  /** The lower-case hexadecimal digits of `n` without leading zeros (`%x` of a
      non-negative value). */
  function HexDigits(n: nat): (s: string)
    ensures |s| >= 1
    ensures forall i :: 0 <= i < |s| ==> IsLowerHexDigit(s[i])
    ensures n < 16 <==> |s| == 1
  {
    if n < 16 then [LowerHexDigit(n)] else HexDigits(n / 16) + [LowerHexDigit(n % 16)]
  }

  function Pow16(k: nat): (r: nat)
    ensures r >= 1
  {
    if k == 0 then 1 else 16 * Pow16(k - 1)
  }

  /** A value with `k` hexadecimal digits, 16^(k-1) <= n < 16^k, prints as exactly `k` of them. */
  lemma {:induction false} HexDigitsWidth(n: nat, k: nat)
    requires k >= 1 && Pow16(k - 1) <= n < Pow16(k)
    ensures |HexDigits(n)| == k
  {
    if k > 1 {
      assert Pow16(k - 1) == 16 * Pow16(k - 2);
      assert Pow16(k - 2) <= n / 16 < Pow16(k - 1);
      HexDigitsWidth(n / 16, k - 1);
    }
  }

  /** `%02x` of an `int`: a negative value is printed as its unsigned 32-bit
      counterpart, and the digits are padded with '0' to at least two. */
  function Format02x(n: Int32): (s: string)
    ensures |s| >= 2
    ensures forall i :: 0 <= i < |s| ==> IsLowerHexDigit(s[i])
  {
    var digits := HexDigits(if n < 0 then n + Modulus else n);
    if |digits| < 2 then "0" + digits else digits
  }

  /** `rgbToHex`: `String.format("#%02x%02x%02x", r, g, b)`. */
  function RgbToHex(r: Int32, g: Int32, b: Int32): (h: string)
    ensures |h| >= 7 && h[0] == '#'
    ensures forall i :: 1 <= i < |h| ==> IsLowerHexDigit(h[i])
  {
    "#" + Format02x(r) + Format02x(g) + Format02x(b)
  }

  /** For a channel in 0..255, `%02x` is its two lower-case digits, high digit first. */
  lemma {:induction false} ByteFormat(n: Int32)
    requires 0 <= n <= 255
    ensures Format02x(n) == [LowerHexDigit(n / 16), LowerHexDigit(n % 16)]
  {
    if n >= 16 {
      assert HexDigits(n / 16) == [LowerHexDigit(n / 16)];
    }
  }

  /** For channels in 0..255, `rgbToHex` is '#' and six lower-case digits, two per channel
      in r, g, b order. */
  lemma {:induction false} RgbToHexShape(r: Int32, g: Int32, b: Int32)
    requires 0 <= r <= 255 && 0 <= g <= 255 && 0 <= b <= 255
    ensures var h := RgbToHex(r, g, b);
      && |h| == 7 && h[0] == '#'
      && (forall i :: 1 <= i < 7 ==> IsLowerHexDigit(h[i]))
      && h[1..3] == [LowerHexDigit(r / 16), LowerHexDigit(r % 16)]
      && h[3..5] == [LowerHexDigit(g / 16), LowerHexDigit(g % 16)]
      && h[5..7] == [LowerHexDigit(b / 16), LowerHexDigit(b % 16)]
  {
    ByteFormat(r);
    ByteFormat(g);
    ByteFormat(b);
  }

  /** Formatting then parsing gives the channels back: `hexToRgb(rgbToHex(r, g, b))` is
      (r, g, b) for every r, g, b in 0..255. */
  lemma {:induction false} RgbRoundTrip(r: Int32, g: Int32, b: Int32)
    requires 0 <= r <= 255 && 0 <= g <= 255 && 0 <= b <= 255
    ensures HexToRgb(RgbToHex(r, g, b)) == Ok(Rgb(r, g, b))
  {
    RgbToHexShape(r, g, b);
    var h := RgbToHex(r, g, b);
    assert HexBody(h) == h[1..];
    assert h[1] == h[1..3][0] && h[2] == h[1..3][1];
    assert h[3] == h[3..5][0] && h[4] == h[3..5][1];
    assert h[5] == h[5..7][0] && h[6] == h[5..7][1];
  }

  /** Parsing then formatting gives the accepted digits back in lower case, behind one '#'. */
  lemma {:induction false} HexRoundTrip(s: string)
    requires HexToRgb(s).Ok?
    ensures var c := HexToRgb(s).value;
      && InIntRange(c.r) && InIntRange(c.g) && InIntRange(c.b)
      && RgbToHex(c.r, c.g, c.b) == "#" + seq(6, i requires 0 <= i < 6 => ToLowerHex(HexBody(s)[i]))
  {
    var d := HexBody(s);
    var c := HexToRgb(s).value;
    PairFormat(d[0], d[1]);
    PairFormat(d[2], d[3]);
    PairFormat(d[4], d[5]);
  }

  /** `%02x` of a parsed two-digit group prints the group in lower case. */
  lemma PairFormat(hi: char, lo: char)
    requires IsHexDigit(hi) && IsHexDigit(lo)
    ensures Format02x(ParseHexPair(hi, lo)) == [ToLowerHex(hi), ToLowerHex(lo)]
  {
    var n := ParseHexPair(hi, lo);
    ByteFormat(n);
    assert n / 16 == HexValue(hi) && n % 16 == HexValue(lo);
  }

  /** A channel outside 0..255 makes `rgbToHex` print more than two digits for it, so the
      string it yields is one `hexToRgb` rejects. */
  lemma {:induction false} OutOfRangeChannelUnparseable(r: Int32, g: Int32, b: Int32)
    requires !(0 <= r <= 255 && 0 <= g <= 255 && 0 <= b <= 255)
    ensures HexToRgb(RgbToHex(r, g, b)).Err?
  {
    FormatWidth(r);
    FormatWidth(g);
    FormatWidth(b);
  }

  /** `%02x` prints exactly two digits for 0..255 and at least three otherwise; a negative
      value prints as the eight digits of its unsigned 32-bit form. */
  lemma {:induction false} FormatWidth(n: Int32)
    ensures |Format02x(n)| >= 2
    ensures |Format02x(n)| == 2 <==> 0 <= n <= 255
    ensures n < 0 ==> |Format02x(n)| == 8
  {
    var u: nat := if n < 0 then n + Modulus else n;
    if n < 0 {
      assert Pow16(7) == 0x1000_0000 && Pow16(8) == Modulus;
      HexDigitsWidth(u, 8);
    }
    if u >= 256 {
      assert u / 16 >= 16;
      assert |HexDigits(u / 16)| >= 2;
    } else if u >= 16 {
      assert |HexDigits(u / 16)| == 1;
    }
  }

  /** `new Color(hex, name)`: prefixes '#' when missing, then parses with `hexToRgb`, whose
      error (naming the prefixed string) propagates. */
  function FromHexNamed(hex: string, name: string): (r: Result<Color>)
    ensures r.Ok? <==> HexToRgb(hex).Ok?
    ensures r.Ok? ==> && |r.value.hex| == 7 && r.value.hex[0] == '#'
                      && AllHexDigits(r.value.hex[1..]) && r.value.hex[1..] == HexBody(hex)
                      && r.value.rgb == HexToRgb(hex).value
                      && HexToRgb(r.value.hex) == Ok(r.value.rgb)
                      && r.value.name == name
    ensures r.Err? ==> r.error == InvalidArgument(InvalidHexMessage + (if |hex| > 0 && hex[0] == '#' then hex else "#" + hex))
  {
    var h := if |hex| > 0 && hex[0] == '#' then hex else "#" + hex;
    match HexToRgb(h)
    case Ok(rgb) => Ok(Color(rgb, h, name))
    case Err(e) => Err(e)
  }

  /** `new Color(hex)`: as the two-argument form, named by its '#'-prefixed hex. */
  function FromHex(hex: string): (r: Result<Color>)
    ensures r.Ok? <==> HexToRgb(hex).Ok?
    ensures r.Ok? ==> r.value.name == r.value.hex && r.value.hex == "#" + HexBody(hex)
  {
    FromHexNamed(hex, if |hex| > 0 && hex[0] == '#' then hex else "#" + hex)
  }

  /** `new Color(r, g, b, name)`: stores the channels as given and derives the hex from
      them, so hex and channels agree whenever the channels are in 0..255. */
  function FromRgbNamed(r: Int32, g: Int32, b: Int32, name: string): (c: Color)
    ensures c.rgb == Rgb(r, g, b) && c.name == name
    ensures 0 <= r <= 255 && 0 <= g <= 255 && 0 <= b <= 255 ==> HexToRgb(c.hex) == Ok(c.rgb)
    ensures !(0 <= r <= 255 && 0 <= g <= 255 && 0 <= b <= 255) ==> HexToRgb(c.hex).Err?
  {
    RgbHexAgreement(r, g, b);
    Color(Rgb(r, g, b), RgbToHex(r, g, b), name)
  }

  /** Both directions of the agreement between `rgbToHex` and `hexToRgb`. */
  lemma RgbHexAgreement(r: Int32, g: Int32, b: Int32)
    ensures 0 <= r <= 255 && 0 <= g <= 255 && 0 <= b <= 255 ==> HexToRgb(RgbToHex(r, g, b)) == Ok(Rgb(r, g, b))
    ensures !(0 <= r <= 255 && 0 <= g <= 255 && 0 <= b <= 255) ==> HexToRgb(RgbToHex(r, g, b)).Err?
  {
    if 0 <= r <= 255 && 0 <= g <= 255 && 0 <= b <= 255 {
      RgbRoundTrip(r, g, b);
    } else {
      OutOfRangeChannelUnparseable(r, g, b);
    }
  }

  /** `new Color(r, g, b)`: as the four-argument form, named by `rgbToHex(r, g, b)`. */
  function FromRgb(r: Int32, g: Int32, b: Int32): (c: Color)
    ensures c.rgb == Rgb(r, g, b) && c.name == c.hex
    ensures 0 <= r <= 255 && 0 <= g <= 255 && 0 <= b <= 255 ==> HexToRgb(c.hex) == Ok(c.rgb)
  {
    FromRgbNamed(r, g, b, RgbToHex(r, g, b))
  }

  /** The cases the source's tests pin down. */
  lemma RedExamples()
    ensures FromHex("#ff0000").Ok? && FromHex("#ff0000").value.hex == "#ff0000"
    ensures FromHex("ff0000").Ok? && FromHex("ff0000").value.hex == "#ff0000"
    ensures FromRgb(255, 0, 0).hex == "#ff0000"
    ensures HexToRgb("#ff0000") == Ok(Rgb(255, 0, 0))
    ensures HexToRgb("zzzzzz").Err?
  {
    RgbToHexShape(255, 0, 0);
    assert HexBody("#ff0000") == "ff0000";
  }
}
