/** Colour values and their conversions: hex parsing of user-supplied colour
    strings, the `Known`/`Unknown` foreground specification, and the scaling
    between byte colours (0..255) and normalised colours (0..1). */
module ColorSpace {
  import opened Wrappers
  import opened Numeric

  type Byte = x: int | 0 <= x < 256

  /** An RGB colour with byte channels (`[u8; 3]`). */
  datatype Color = RGB(r: Byte, g: Byte, b: Byte)

  /** An RGBA pixel with byte channels (`Rgba<u8>`). */
  datatype Pixel = RGBA(r: Byte, g: Byte, b: Byte, a: Byte) {
    function Rgb(): Color { RGB(r, g, b) }
  }

  const Transparent: Pixel := RGBA(0, 0, 0, 0)

  /** Multiplier that expands a shorthand digit, so `f` becomes `ff`. */
  const HexShorthandMultiplier: nat := 17

  /** A foreground colour given by the user, or one to be deduced. */
  datatype ForegroundSpec = Known(color: Color) | Unknown

  /** Why a hex colour string was rejected. */
  datatype ParseError = InvalidRed | InvalidGreen | InvalidBlue | BadLength(got: string)

  predicate IsHexDigit(c: char) {
    '0' <= c <= '9' || 'a' <= c <= 'f' || 'A' <= c <= 'F'
  }

  function HexValue(c: char): (d: nat)
    requires IsHexDigit(c)
    ensures d < 16
  {
    if '0' <= c <= '9' then (c - '0') as nat
    else if 'a' <= c <= 'f' then (c - 'a') as nat + 10
    else (c - 'A') as nat + 10
  }

  /** The lower-case hex digit for `d`. */
  function HexChar(d: nat): (c: char)
    requires d < 16
    ensures IsHexDigit(c) && HexValue(c) == d
  {
    if d < 10 then ('0' as int + d) as char else ('a' as int + d - 10) as char
  }

  /** Every character is a hex digit. */
  predicate AllHex(ds: string) {
    forall k :: 0 <= k < |ds| ==> IsHexDigit(ds[k])
  }

  /** Value of a string of hex digits, most significant first. */
  function DigitsValue(ds: string): nat
    requires AllHex(ds)
  {
    if ds == [] then 0 else 16 * DigitsValue(ds[..|ds| - 1]) + HexValue(ds[|ds| - 1])
  }

  /** The value of one or two hex digits. */
  lemma DigitsValueShort(ds: string)
    requires AllHex(ds)
    ensures |ds| == 1 ==> DigitsValue(ds) == HexValue(ds[0])
    ensures |ds| == 2 ==> DigitsValue(ds) == 16 * HexValue(ds[0]) + HexValue(ds[1])
  {
    if |ds| == 0 || |ds| > 2 {
      return;
    }
    var init := ds[..|ds| - 1];
    assert AllHex(init);
    if |ds| == 2 {
      assert init[..0] == [];
      assert DigitsValue(init[..0]) == 0;
      assert DigitsValue(init) == HexValue(ds[0]);
    } else {
      assert init == [];
    }
  }

  /** The digits `u8::from_str_radix` reads: a leading `+` is dropped when something follows it. */
  function SignlessDigits(s: string): string {
    if |s| > 1 && s[0] == '+' then s[1..] else s
  }

  /** `u8::from_str_radix(s, 16)`: an optional leading `+`, then hex digits
      whose value must fit in a byte. */
  function ParseU8(s: string): (r: Option<Byte>)
    ensures |s| == 1 && r.Some? ==> r.value < 16
  {
    if s == [] then None
    else
      var ds := SignlessDigits(s);
      if AllHex(ds) then
        var v := DigitsValue(ds);
        DigitsValueShort(ds);
        if v < 256 then Some(v) else None
      else None
  }

  /** A one-character component parses exactly when it is a hex digit. */
  lemma ParseU8One(c: char)
    ensures ParseU8([c]) == if IsHexDigit(c) then Some(HexValue(c)) else None
  {
    assert SignlessDigits([c]) == [c];
    if IsHexDigit(c) {
      DigitsValueShort([c]);
    } else {
      assert !IsHexDigit([c][0]);
    }
  }

  /** A two-character component parses exactly when it is two hex digits or `+` and a hex digit. */
  lemma ParseU8Two(a: char, b: char)
    ensures ParseU8([a, b]) == if PairOk(a, b) then Some(PairValue(a, b)) else None
  {
    var s := [a, b];
    if a == '+' {
      assert SignlessDigits(s) == [b];
      if IsHexDigit(b) {
        DigitsValueShort([b]);
      } else {
        assert !IsHexDigit([b][0]);
      }
    } else {
      assert SignlessDigits(s) == s;
      if !IsHexDigit(a) {
        assert !IsHexDigit(s[0]);
      } else if !IsHexDigit(b) {
        assert !IsHexDigit(s[1]);
      } else {
        DigitsValueShort(s);
      }
    }
  }

  /** `trim_start_matches('#')`: every leading `#` removed. */
  function TrimLeadingHashes(s: string): (t: string)
    ensures |t| <= |s|
    ensures t == [] || t[0] != '#'
  {
    if s != [] && s[0] == '#' then TrimLeadingHashes(s[1..]) else s
  }

  /** Byte channel `d` of a 3-digit shorthand, `d * 17`. */
  function Expand(d: Byte): (v: Byte)
    requires d < 16
  {
    d * HexShorthandMultiplier
  }

  /** A two-character slice that `u8::from_str_radix` accepts. */
  predicate PairOk(a: char, b: char) {
    (IsHexDigit(a) || a == '+') && IsHexDigit(b)
  }

  function PairValue(a: char, b: char): nat
    requires PairOk(a, b)
  {
    if a == '+' then HexValue(b) else 16 * HexValue(a) + HexValue(b)
  }

  /** The three components, checked red, then green, then blue. */
  function Components(r: Option<Byte>, g: Option<Byte>, b: Option<Byte>): (c: Result<Color, ParseError>)
    ensures c.Ok? <==> r.Some? && g.Some? && b.Some?
    ensures c.Ok? ==> c.value == RGB(r.value, g.value, b.value)
    ensures c == Err(InvalidRed) <==> r.None?
    ensures c == Err(InvalidGreen) <==> r.Some? && g.None?
    ensures c == Err(InvalidBlue) <==> r.Some? && g.Some? && b.None?
  {
    match (r, g, b)
    case (None, _, _) => Err(InvalidRed)
    case (Some(_), None, _) => Err(InvalidGreen)
    case (Some(_), Some(_), None) => Err(InvalidBlue)
    case (Some(x), Some(y), Some(z)) => Ok(RGB(x, y, z))
  }

  /** A shorthand digit, already expanded by `* 17`. */
  function ParseShorthandDigit(s: string): (r: Option<Byte>)
    requires |s| == 1
  {
    match ParseU8(s)
    case None => None
    case Some(d) => Some(Expand(d))
  }

  /** `parse_hex_color`: `#rgb`, `rgb`, `#rrggbb` or `rrggbb` (any number of
      leading `#`), components checked red, then green, then blue. */
  function ParseHexColor(hex: string): (r: Result<Color, ParseError>)
    ensures var h := TrimLeadingHashes(hex);
      |h| != 3 && |h| != 6 <==> r == Err(BadLength(h))
  {
    var h := TrimLeadingHashes(hex);
    if |h| == 3 then
      Components(ParseShorthandDigit(h[0..1]), ParseShorthandDigit(h[1..2]), ParseShorthandDigit(h[2..3]))
    else if |h| == 6 then
      Components(ParseU8(h[0..2]), ParseU8(h[2..4]), ParseU8(h[4..6]))
    else
      Err(BadLength(h))
  }

  /** The 3-digit shorthand: each hex digit `d` becomes the channel `d * 17`;
      a non-hex digit is reported for the first component that has one. */
  lemma ParseShorthand(hex: string)
    requires |TrimLeadingHashes(hex)| == 3
    ensures var h, r := TrimLeadingHashes(hex), ParseHexColor(hex);
      && (r.Ok? <==> IsHexDigit(h[0]) && IsHexDigit(h[1]) && IsHexDigit(h[2]))
      && (r.Ok? ==> r.value == RGB(17 * HexValue(h[0]), 17 * HexValue(h[1]), 17 * HexValue(h[2])))
      && (r == Err(InvalidRed) <==> !IsHexDigit(h[0]))
      && (r == Err(InvalidGreen) <==> IsHexDigit(h[0]) && !IsHexDigit(h[1]))
      && (r == Err(InvalidBlue) <==> IsHexDigit(h[0]) && IsHexDigit(h[1]) && !IsHexDigit(h[2]))
  {
    var h := TrimLeadingHashes(hex);
    assert h[0..1] == [h[0]] && h[1..2] == [h[1]] && h[2..3] == [h[2]];
    ParseU8One(h[0]);
    ParseU8One(h[1]);
    ParseU8One(h[2]);
  }

  /** The 6-digit form: each pair of characters is one channel byte; a pair
      that `from_str_radix` refuses is reported for the first such component. */
  lemma ParseFull(hex: string)
    requires |TrimLeadingHashes(hex)| == 6
    ensures var h, r := TrimLeadingHashes(hex), ParseHexColor(hex);
      && (r.Ok? <==> PairOk(h[0], h[1]) && PairOk(h[2], h[3]) && PairOk(h[4], h[5]))
      && (r.Ok? ==> r.value == RGB(PairValue(h[0], h[1]), PairValue(h[2], h[3]), PairValue(h[4], h[5])))
      && (r == Err(InvalidRed) <==> !PairOk(h[0], h[1]))
      && (r == Err(InvalidGreen) <==> PairOk(h[0], h[1]) && !PairOk(h[2], h[3]))
      && (r == Err(InvalidBlue) <==> PairOk(h[0], h[1]) && PairOk(h[2], h[3]) && !PairOk(h[4], h[5]))
  {
    var h := TrimLeadingHashes(hex);
    assert h[0..2] == [h[0], h[1]] && h[2..4] == [h[2], h[3]] && h[4..6] == [h[4], h[5]];
    ParseU8Two(h[0], h[1]);
    ParseU8Two(h[2], h[3]);
    ParseU8Two(h[4], h[5]);
  }

  /** `parse_foreground_spec`: the literal `auto` asks for deduction, anything
      else must be a hex colour. */
  function ParseForegroundSpec(spec: string): (r: Result<ForegroundSpec, ParseError>)
    ensures r == Ok(Unknown) <==> spec == "auto"
    ensures spec != "auto" ==> match ParseHexColor(spec)
      case Ok(c) => r == Ok(Known(c))
      case Err(e) => r == Err(e)
  {
    if spec == "auto" then Ok(Unknown)
    else
      match ParseHexColor(spec)
      case Ok(c) => Ok(Known(c))
      case Err(e) => Err(e)
  }

  /** The six lower-case hex digits of a colour, without `#`. */
  function ToHex(c: Color): (s: string)
    ensures |s| == 6
  {
    [HexChar(c.r / 16), HexChar(c.r % 16), HexChar(c.g / 16),
     HexChar(c.g % 16), HexChar(c.b / 16), HexChar(c.b % 16)]
  }

  /** `n` copies of `#`. */
  function Hashes(n: nat): (s: string)
    ensures |s| == n && forall k :: 0 <= k < n ==> s[k] == '#'
  {
    seq(n, _ => '#')
  }

  /** Leading `#` characters never change the parse. */
  lemma {:induction false} LeadingHashesIgnored(n: nat, s: string)
    ensures TrimLeadingHashes(Hashes(n) + s) == TrimLeadingHashes(s)
    ensures ParseHexColor(Hashes(n) + s) == ParseHexColor(s)
  {
    var t := Hashes(n) + s;
    if n > 0 {
      assert t[0] == '#';
      assert t[1..] == Hashes(n - 1) + s;
      assert TrimLeadingHashes(t) == TrimLeadingHashes(t[1..]);
      LeadingHashesIgnored(n - 1, s);
    } else {
      assert t == s;
    }
  }

  /** Trimming removes nothing but a run of leading `#`. */
  lemma {:induction false} TrimRemovesOnlyHashes(s: string)
    ensures s == Hashes(|s| - |TrimLeadingHashes(s)|) + TrimLeadingHashes(s)
  {
    if s != [] && s[0] == '#' {
      TrimRemovesOnlyHashes(s[1..]);
      var n := |s[1..]| - |TrimLeadingHashes(s[1..])|;
      assert [s[0]] + Hashes(n) == Hashes(n + 1);
      assert s == [s[0]] + s[1..];
    } else {
      assert Hashes(0) + s == s;
    }
  }

  /** Any colour written as six hex digits, behind any number of `#`, parses back to itself. */
  lemma HexRoundTrip(c: Color, n: nat)
    ensures ParseHexColor(Hashes(n) + ToHex(c)) == Ok(c)
  {
    LeadingHashesIgnored(n, ToHex(c));
    var h := ToHex(c);
    assert TrimLeadingHashes(h) == h;
    ParseFull(h);
    ByteHexRoundTrip(c.r);
    ByteHexRoundTrip(c.g);
    ByteHexRoundTrip(c.b);
  }

  /** A byte's two hex digits read back as that byte. */
  lemma ByteHexRoundTrip(x: Byte)
    ensures PairOk(HexChar(x / 16), HexChar(x % 16)) && PairValue(HexChar(x / 16), HexChar(x % 16)) == x
  {
  }

  /** Every colour parsed from a 3-digit shorthand has channels that are multiples of 17. */
  lemma ShorthandChannels(hex: string)
    requires |TrimLeadingHashes(hex)| == 3 && ParseHexColor(hex).Ok?
    ensures var c := ParseHexColor(hex).value;
      c.r % 17 == 0 && c.g % 17 == 0 && c.b % 17 == 0
  {
    ParseShorthand(hex);
  }

  /** `f00` is pure red. */
  lemma ShorthandRed()
    ensures ParseHexColor("#f00") == ParseHexColor("f00") == ParseHexColor("##f00") == Ok(RGB(255, 0, 0))
  {
    assert TrimLeadingHashes("f00") == "f00";
    assert "#f00" == Hashes(1) + "f00";
    assert "##f00" == Hashes(2) + "f00";
    LeadingHashesIgnored(1, "f00");
    LeadingHashesIgnored(2, "f00");
    ParseShorthand("f00");
  }

  /** `from_str_radix` lets a `+` sign into each 2-digit component. */
  lemma PlusSignAccepted()
    ensures ParseHexColor("+f+f+f") == Ok(RGB(15, 15, 15))
  {
    assert TrimLeadingHashes("+f+f+f") == "+f+f+f";
    ParseFull("+f+f+f");
  }

  /** `normalize_color`: each channel divided by 255. */
  function Normalize(c: Color): (v: Vec3)
    ensures InUnitCube(v)
    ensures v.x * 255.0 == c.r as real && v.y * 255.0 == c.g as real && v.z * 255.0 == c.b as real
  {
    Vec3(c.r as real / 255.0, c.g as real / 255.0, c.b as real / 255.0)
  }

  /** One channel of `denormalize_color`: scaled, rounded, clamped to a byte. */
  function DenormalizeChannel(x: real): (b: Byte)
    ensures 0.0 <= x * 255.0 <= 255.0 ==> x * 255.0 - 0.5 <= b as real <= x * 255.0 + 0.5
    ensures x <= 0.0 ==> b == 0
    ensures x >= 1.0 ==> b == 255
  {
    var n := RoundHalfAway(x * 255.0);
    if n < 0 then 0 else if n > 255 then 255 else n
  }

  /** `denormalize_color`. */
  function Denormalize(v: Vec3): Color {
    RGB(DenormalizeChannel(v.x), DenormalizeChannel(v.y), DenormalizeChannel(v.z))
  }

  /** Normalising then denormalising gives the colour back. */
  lemma DenormalizeNormalize(c: Color)
    ensures Denormalize(Normalize(c)) == c
  {
    var v := Normalize(c);
    RoundOfInteger(c.r);
    RoundOfInteger(c.g);
    RoundOfInteger(c.b);
  }
}
