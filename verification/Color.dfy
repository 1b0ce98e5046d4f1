/**
 Colour conversion for the editor's picker (src/lib/color.ts), in real arithmetic:
 RGB to HSV and back, and the hex strings the editor stores.
 */
module Color {
  import opened Options
  import opened Numerals

  datatype Hsva = Hsva(h: real, s: real, v: real, a: real)

  datatype Rgba = Rgba(r: real, g: real, b: real, a: real)

  function Max(a: real, b: real): real {
    if a < b then b else a
  }

  function Min(a: real, b: real): real {
    if b < a then b else a
  }

  function AbsR(x: real): real {
    if x < 0.0 then -x else x
  }

  /** Math.round. */
  function Round(x: real): int {
    (x + 0.5).Floor
  }

  function Clamp(value: int, min: int, max: int): int {
    var low := if value < min then min else value;
    if low < max then low else max
  }

  /** The remainder operator: the result has the sign of x. */
  function Mod(x: real, m: real): real
    requires m > 0.0
  {
    if x < 0.0 then -(-x - m * (-x / m).Floor as real) else x - m * (x / m).Floor as real
  }

  // ---- RGB and HSV -------------------------------------------------------

  function RgbaToHsva(c: Rgba): Hsva {
    var red, green, blue := c.r / 255.0, c.g / 255.0, c.b / 255.0;
    var max, min := Max(red, Max(green, blue)), Min(red, Min(green, blue));
    var delta := max - min;
    var h :=
      if delta == 0.0 then 0.0
      else if max == red then 60.0 * Mod((green - blue) / delta, 6.0)
      else if max == green then 60.0 * ((blue - red) / delta + 2.0)
      else 60.0 * ((red - green) / delta + 4.0);
    Hsva(if h < 0.0 then h + 360.0 else h, if max == 0.0 then 0.0 else (delta / max) * 100.0, max * 100.0, c.a)
  }

  /** The sector of the hue wheel: which of c, x and 0 the three channels carry. */
  function Sector(hue: real, c: real, x: real): (real, real, real) {
    if hue < 60.0 then (c, x, 0.0)
    else if hue < 120.0 then (x, c, 0.0)
    else if hue < 180.0 then (0.0, c, x)
    else if hue < 240.0 then (0.0, x, c)
    else if hue < 300.0 then (x, 0.0, c)
    else (c, 0.0, x)
  }

  /** The channels before they are rounded to bytes. */
  function Channels(hsva: Hsva): (real, real, real) {
    ChannelsFrom(NormalHue(hsva.h), ChromaOf(hsva.s, hsva.v), hsva.v / 100.0)
  }

  function NormalHue(h: real): real {
    Mod(Mod(h, 360.0) + 360.0, 360.0)
  }

  function ChromaOf(s: real, v: real): real {
    (v / 100.0) * (s / 100.0)
  }

  function ChannelsFrom(hue: real, c: real, value: real): (real, real, real) {
    Lifted(Sector(hue, c, RampOf(hue, c)), value - c)
  }

  /** x: how far the rising or falling channel has got. */
  function RampOf(hue: real, c: real): real {
    c * (1.0 - AbsR(Mod(hue / 60.0, 2.0) - 1.0))
  }

  function Lifted(channels: (real, real, real), m: real): (real, real, real) {
    ((channels.0 + m) * 255.0, (channels.1 + m) * 255.0, (channels.2 + m) * 255.0)
  }

  function HsvaToRgba(hsva: Hsva): Rgba {
    var (r, g, b) := Channels(hsva);
    Rgba(Round(r) as real, Round(g) as real, Round(b) as real, hsva.a)
  }

  predicate InRange(c: Rgba) {
    0.0 <= c.r <= 255.0 && 0.0 <= c.g <= 255.0 && 0.0 <= c.b <= 255.0
  }

  // ---- the conversion is exactly invertible -------------------------------

  lemma ModSmall(x: real, m: real, k: int)
    requires m > 0.0 && k >= 0 && m * k as real <= x < m * (k + 1) as real
    ensures Mod(x, m) == x - m * k as real
  {
    var q := x / m;
    Products(q, k as real, m);
    Products(q, (k + 1) as real, m);
    SignOf(q - k as real, m, x - m * k as real);
    SignOf(q - (k + 1) as real, m, x - m * (k + 1) as real);
    assert q.Floor == k;
  }

  lemma Products(a: real, b: real, c: real)
    ensures (a - b) * c == a * c - c * b
    ensures (a + b) * c == a * c + c * b
  {
  }

  lemma ModOfNegative(x: real, m: real)
    requires m > 0.0 && -m < x < 0.0
    ensures Mod(x, m) == x
  {
    ModSmall(-x, m, 0);
  }

  /** A hue that is already in [0, 360) is not changed by normalising it. */
  lemma HueNormalised(h: real)
    requires 0.0 <= h < 360.0
    ensures NormalHue(h) == h
  {
    ModSmall(h, 360.0, 0);
    ModSmall(h + 360.0, 360.0, 1);
  }

  /** Any hue at all is brought to [0, 360) by whole turns. */
  lemma NormalHueMeans(h: real) returns (turns: int)
    ensures 0.0 <= NormalHue(h) < 360.0
    ensures NormalHue(h) == h + 360.0 * turns as real
  {
    var whole := if h < 0.0 then -(-h / 360.0).Floor else (h / 360.0).Floor;
    var rest := Mod(h, 360.0);
    assert rest == h - 360.0 * whole as real && -360.0 < rest < 360.0;
    if rest < 0.0 {
      ModSmall(rest + 360.0, 360.0, 0);
      turns := 1 - whole;
    } else {
      ModSmall(rest + 360.0, 360.0, 1);
      turns := -whole;
    }
  }

  /** So a hue and the same hue some turns further are the same colour. */
  lemma HueIsPeriodic(hsva: Hsva, turns: int)
    ensures HsvaToRgba(hsva.(h := hsva.h + 360.0 * turns as real)) == HsvaToRgba(hsva)
  {
    hide NormalHue, ChannelsFrom, ChromaOf;
    var k := NormalHueMeans(hsva.h);
    var l := NormalHueMeans(hsva.h + 360.0 * turns as real);
    assert NormalHue(hsva.h + 360.0 * turns as real) - NormalHue(hsva.h) == 360.0 * (turns + l - k) as real;
    assert turns + l - k == 0;
  }

  /** At position 2 * half + q of the six sectors, -1 <= q <= 1, the ramp is |q| of the chroma. */
  lemma Ramp(half: int, q: real, hue: real, c: real)
    requires 0 <= half <= 3 && -1.0 <= q <= 1.0 && (half == 0 ==> q >= 0.0)
    requires hue == 60.0 * (2.0 * half as real + q)
    ensures RampOf(hue, c) == c * AbsR(q)
  {
    RampMod(half, q, hue / 60.0);
    assert 1.0 - AbsR(Mod(hue / 60.0, 2.0) - 1.0) == AbsR(q);
  }

  lemma RampMod(half: int, q: real, position: real)
    requires 0 <= half <= 3 && -1.0 <= q <= 1.0 && (half == 0 ==> q >= 0.0)
    requires position == 2.0 * half as real + q
    ensures Mod(position, 2.0) == if q < 0.0 then q + 2.0 else q
  {
    var k := if q < 0.0 then half - 1 else half;
    assert 2.0 * k as real <= position < 2.0 * (k + 1) as real;
    ModSmall(position, 2.0, k);
  }

  lemma Quotient(x: real, delta: real)
    requires delta > 0.0 && -delta <= x <= delta
    ensures -1.0 <= x / delta <= 1.0
    ensures x < 0.0 <==> x / delta < 0.0
    ensures delta * AbsR(x / delta) == AbsR(x)
    ensures x == delta <==> x / delta == 1.0
  {
    Scaled(x / delta, delta, x);
  }

  lemma Scaled(q: real, delta: real, x: real)
    requires delta > 0.0 && q * delta == x && -delta <= x <= delta
    ensures -1.0 <= q <= 1.0
    ensures x < 0.0 <==> q < 0.0
    ensures delta * AbsR(q) == AbsR(x)
    ensures x == delta <==> q == 1.0
  {
    OneAway(q, delta);
    SignOf(q, delta, x);
    SignOf(q - 1.0, delta, x - delta);
    SignOf(q + 1.0, delta, x + delta);
  }

  /** A product with a positive factor has the sign of the other. */
  lemma SignOf(a: real, b: real, product: real)
    requires b > 0.0 && product == a * b
    ensures (a > 0.0 <==> product > 0.0) && (a < 0.0 <==> product < 0.0) && (a == 0.0 <==> product == 0.0)
  {
    SameSign(a, b);
  }

  lemma OneAway(q: real, delta: real)
    ensures (q - 1.0) * delta == q * delta - delta && (q + 1.0) * delta == q * delta + delta
    ensures delta * AbsR(q) == if q < 0.0 then -(q * delta) else q * delta
  {
    Products(q, 1.0, delta);
    Products(0.0, q, delta);
  }

  lemma SameSign(a: real, b: real)
    requires b > 0.0
    ensures a > 0.0 <==> a * b > 0.0
    ensures a < 0.0 <==> a * b < 0.0
  {
  }

  lemma Chroma(delta: real, max: real)
    requires 0.0 < delta <= max
    ensures ChromaOf((delta / max) * 100.0, max * 100.0) == delta
  {
    assert max * 100.0 / 100.0 == max;
    assert (delta / max) * 100.0 / 100.0 == delta / max;
  }

  /** The channels of a colour given by its sector position, chroma and value. */
  lemma ChannelsAt(hsva: Hsva, half: int, q: real, delta: real, max: real, ramp: real)
    requires 0 <= half <= 3 && -1.0 <= q <= 1.0 && (half == 0 ==> q >= 0.0) && (half == 3 ==> q < 0.0)
    requires 0.0 < delta <= max && ramp == delta * AbsR(q)
    requires hsva.h == 60.0 * (2.0 * half as real + q) && hsva.s == (delta / max) * 100.0 && hsva.v == max * 100.0
    ensures Channels(hsva) == Lifted(Sector(hsva.h, delta, ramp), max - delta)
  {
    Chroma(delta, max);
    Ramp(half, q, hsva.h, delta);
    ChannelsOf(hsva, delta);
    assert hsva.v / 100.0 == max;
  }

  lemma ChannelsOf(hsva: Hsva, c: real)
    requires 0.0 <= hsva.h < 360.0 && c == ChromaOf(hsva.s, hsva.v)
    ensures Channels(hsva) == ChannelsFrom(hsva.h, c, hsva.v / 100.0)
  {
    HueNormalised(hsva.h);
  }

  lemma NoChroma(hsva: Hsva)
    requires hsva.h == 0.0 && hsva.s == 0.0
    ensures var v := hsva.v / 100.0 * 255.0; Channels(hsva) == (v, v, v)
  {
    Ramp(0, 0.0, 0.0, 0.0);
    ChannelsOf(hsva, 0.0);
  }

  lemma GreyBack(c: Rgba)
    requires InRange(c) && c.r == c.g == c.b
    ensures Channels(RgbaToHsva(c)) == (c.r, c.g, c.b)
  {
    var hsva := RgbaToHsva(c);
    assert hsva.h == 0.0 && hsva.s == 0.0 && hsva.v == c.r / 255.0 * 100.0;
    NoChroma(hsva);
    assert hsva.v / 100.0 * 255.0 == c.r;
  }

  lemma RedBack(c: Rgba)
    requires InRange(c) && c.g <= c.r && c.b <= c.r && (c.g < c.r || c.b < c.r)
    ensures Channels(RgbaToHsva(c)) == (c.r, c.g, c.b)
  {
    hide RgbaToHsva, Channels, Mod, Sector;
    var red, green, blue := c.r / 255.0, c.g / 255.0, c.b / 255.0;
    var delta := red - Min(green, blue);
    var q := (green - blue) / delta;
    Quotient(green - blue, delta);
    RedHue(c, delta, q);
    HsvOf(c, red, delta);
    var hsva := RgbaToHsva(c);
    ChannelsAt(hsva, if q < 0.0 then 3 else 0, q, delta, red, AbsR(green - blue));
    RedSector(red, green, blue, delta, q, hsva.h);
  }

  lemma RedHue(c: Rgba, delta: real, q: real)
    requires c.g <= c.r && c.b <= c.r && delta == c.r / 255.0 - Min(c.g / 255.0, c.b / 255.0) > 0.0
    requires -1.0 <= q <= 1.0 && q == (c.g / 255.0 - c.b / 255.0) / delta
    ensures RgbaToHsva(c).h == if q < 0.0 then 360.0 + 60.0 * q else 60.0 * q
  {
    if q < 0.0 {
      ModOfNegative(q, 6.0);
    } else {
      ModSmall(q, 6.0, 0);
    }
  }

  lemma RedSector(red: real, green: real, blue: real, delta: real, q: real, h: real)
    requires green <= red && blue <= red && delta == red - Min(green, blue) > 0.0
    requires -1.0 <= q <= 1.0 && (green - blue < 0.0 <==> q < 0.0) && (green - blue == delta <==> q == 1.0)
    requires h == if q < 0.0 then 360.0 + 60.0 * q else 60.0 * q
    ensures Lifted(Sector(h, delta, AbsR(green - blue)), red - delta) == (red * 255.0, green * 255.0, blue * 255.0)
  {
  }

  lemma HsvOf(c: Rgba, max: real, delta: real)
    requires max == Max(c.r / 255.0, Max(c.g / 255.0, c.b / 255.0)) > 0.0
    requires delta == max - Min(c.r / 255.0, Min(c.g / 255.0, c.b / 255.0))
    ensures RgbaToHsva(c).s == (delta / max) * 100.0 && RgbaToHsva(c).v == max * 100.0
  {
  }

  lemma GreenBack(c: Rgba)
    requires InRange(c) && c.r < c.g && c.b <= c.g
    ensures Channels(RgbaToHsva(c)) == (c.r, c.g, c.b)
  {
    var red, green, blue := c.r / 255.0, c.g / 255.0, c.b / 255.0;
    var delta := green - Min(red, blue);
    var q := (blue - red) / delta;
    Quotient(blue - red, delta);
    var hsva := RgbaToHsva(c);
    HsvOf(c, green, delta);
    assert hsva.h == 60.0 * (q + 2.0);
    ChannelsAt(hsva, 1, q, delta, green, AbsR(blue - red));
    GreenSector(red, green, blue, delta, q, hsva.h);
  }

  lemma GreenSector(red: real, green: real, blue: real, delta: real, q: real, h: real)
    requires red < green && blue <= green && delta == green - Min(red, blue)
    requires -1.0 <= q <= 1.0 && (blue - red < 0.0 <==> q < 0.0) && (blue - red == delta <==> q == 1.0)
    requires h == 120.0 + 60.0 * q
    ensures Lifted(Sector(h, delta, AbsR(blue - red)), green - delta) == (red * 255.0, green * 255.0, blue * 255.0)
  {
  }

  lemma BlueBack(c: Rgba)
    requires InRange(c) && c.r < c.b && c.g < c.b
    ensures Channels(RgbaToHsva(c)) == (c.r, c.g, c.b)
  {
    var red, green, blue := c.r / 255.0, c.g / 255.0, c.b / 255.0;
    var delta := blue - Min(red, green);
    var q := (red - green) / delta;
    Quotient(red - green, delta);
    var hsva := RgbaToHsva(c);
    HsvOf(c, blue, delta);
    assert hsva.h == 60.0 * (q + 4.0);
    ChannelsAt(hsva, 2, q, delta, blue, AbsR(red - green));
    BlueSector(red, green, blue, delta, q, hsva.h);
  }

  lemma BlueSector(red: real, green: real, blue: real, delta: real, q: real, h: real)
    requires red < blue && green < blue && delta == blue - Min(red, green)
    requires -1.0 <= q <= 1.0 && (red - green < 0.0 <==> q < 0.0) && (red - green == delta <==> q == 1.0)
    requires h == 240.0 + 60.0 * q
    ensures Lifted(Sector(h, delta, AbsR(red - green)), blue - delta) == (red * 255.0, green * 255.0, blue * 255.0)
  {
  }

  /** Converting to HSV and back gives every colour in range its own channels again, before rounding, exactly. */
  lemma ConversionIsExact(c: Rgba)
    requires InRange(c)
    ensures Channels(RgbaToHsva(c)) == (c.r, c.g, c.b)
    ensures HsvaToRgba(RgbaToHsva(c)) == Rgba(Round(c.r) as real, Round(c.g) as real, Round(c.b) as real, c.a)
  {
    if c.r == c.g == c.b {
      GreyBack(c);
    } else if c.g <= c.r && c.b <= c.r {
      RedBack(c);
    } else if c.r < c.g && c.b <= c.g {
      GreenBack(c);
    } else {
      BlueBack(c);
    }
  }

  /** Hue, saturation and value lie in their ranges; the value is the largest channel and a grey has no saturation. */
  lemma HsvRanges(c: Rgba)
    requires InRange(c)
    ensures var hsva := RgbaToHsva(c);
      && 0.0 <= hsva.h < 360.0 && 0.0 <= hsva.s <= 100.0
      && hsva.v * 255.0 == 100.0 * Max(c.r, Max(c.g, c.b))
      && (hsva.s == 0.0 <==> c.r == c.g == c.b)
  {
    var red, green, blue := c.r / 255.0, c.g / 255.0, c.b / 255.0;
    var max, min := Max(red, Max(green, blue)), Min(red, Min(green, blue));
    if max > min {
      Quotient(max - min, max);
      Quotient(if max == red then green - blue else if max == green then blue - red else red - green, max - min);
      if max == red {
        RedHue(c, max - min, (green - blue) / (max - min));
      }
    }
  }

  /** The hue tells the largest channel: red within 60 degrees of 0, green of 120, blue of 240; a grey has hue 0. */
  lemma HueNamesLargest(c: Rgba)
    requires InRange(c)
    ensures var h := RgbaToHsva(c).h;
      if c.r == c.g == c.b then h == 0.0
      else
        && (c.g <= c.r && c.b <= c.r <==> h <= 60.0 || 300.0 <= h)
        && (c.r <= c.g && c.b <= c.g <==> 60.0 <= h <= 180.0)
        && (c.r <= c.b && c.g <= c.b <==> 180.0 <= h <= 300.0)
  {
    var red, green, blue := c.r / 255.0, c.g / 255.0, c.b / 255.0;
    if c.r == c.g == c.b {
    } else if c.g <= c.r && c.b <= c.r {
      var delta := red - Min(green, blue);
      Quotient(green - blue, delta);
      Quotient(blue - green, delta);
      RedHue(c, delta, (green - blue) / delta);
      Opposite(green - blue, delta);
    } else if c.b <= c.g {
      var delta := green - Min(red, blue);
      Quotient(blue - red, delta);
      Quotient(red - blue, delta);
      Opposite(blue - red, delta);
      assert RgbaToHsva(c).h == 120.0 + 60.0 * ((blue - red) / delta);
    } else {
      var delta := blue - Min(red, green);
      Quotient(red - green, delta);
      Quotient(green - red, delta);
      Opposite(red - green, delta);
      assert RgbaToHsva(c).h == 240.0 + 60.0 * ((red - green) / delta);
    }
  }

  lemma Opposite(x: real, delta: real)
    requires delta > 0.0
    ensures (-x) / delta == -(x / delta)
  {
    Products(0.0, x / delta, delta);
    assert -(x / delta) * delta == -x;
  }

  // ---- hex strings -------------------------------------------------------

  const HEX := "0123456789abcdef"

  /** n.toString(16). */
  function ToHex(n: nat): string {
    if n < 16 then [HEX[n]] else ToHex(n / 16) + [HEX[n % 16]]
  }

  /** parseInt(s, 16) on hex digits. */
  function ParseHexInt(s: string): nat
    requires forall c :: c in s ==> IsHex(c)
  {
    if s == "" then 0 else 16 * ParseHexInt(s[..|s| - 1]) + HexDigit(s[|s| - 1])
  }

  /** padStart(2, '0') of the hex numeral. */
  function Pad(value: nat): string {
    var s := ToHex(value);
    if |s| < 2 then "0" + s else s
  }

  function Byte(x: real): (b: nat)
    ensures b <= 255
  {
    Clamp(Round(x), 0, 255)
  }

  function FormatHex(c: Rgba): string {
    FormatBytes(Byte(c.r), Byte(c.g), Byte(c.b), if c.a >= 1.0 then None else Some(Byte(c.a * 255.0)))
  }

  function FormatBytes(r: nat, g: nat, b: nat, a: Option<nat>): string {
    var base := "#" + Pad(r) + Pad(g) + Pad(b);
    match a
    case None => base
    case Some(alpha) => base + Pad(alpha)
  }

  /** What parseColor makes of a string up to its hex branch; NotHex goes on to the rgb() and hsl() forms. */
  datatype Reading = Unreadable | NotHex | Read(color: Rgba)

  predicate AllHex(s: string) {
    forall c :: c in s ==> IsHex(c)
  }

  function ParseHexColor(input: string): Reading {
    var value := Trim(input);
    if value == "" then Unreadable
    else if value[0] == '#' && 4 <= |value| <= 9 && AllHex(value[1..]) then ParseDigits(value[1..])
    else NotHex
  }

  function Pair(x: char, y: char): real
    requires IsHex(x) && IsHex(y)
  {
    ParseHexInt([x, y]) as real
  }

  function ParseDigits(d: string): Reading
    requires AllHex(d)
  {
    if |d| == 3 || |d| == 4 then
      Read(Rgba(Pair(d[0], d[0]), Pair(d[1], d[1]), Pair(d[2], d[2]),
                if |d| == 4 then Pair(d[3], d[3]) / 255.0 else 1.0))
    else if |d| == 6 || |d| == 8 then
      Read(Rgba(Pair(d[0], d[1]), Pair(d[2], d[3]), Pair(d[4], d[5]),
                if |d| == 8 then Pair(d[6], d[7]) / 255.0 else 1.0))
    else Unreadable
  }

  lemma PadReadsBack(b: nat)
    requires b <= 255
    ensures |Pad(b)| == 2 && AllHex(Pad(b)) && Pair(Pad(b)[0], Pad(b)[1]) == b as real
  {
    HexDigitReadsBack(b / 16);
    HexDigitReadsBack(b % 16);
    if b < 16 {
      assert ToHex(b) == [HEX[b]] && Pad(b) == "0" + [HEX[b]];
    } else {
      assert ToHex(b / 16) == [HEX[b / 16]];
      assert ToHex(b) == [HEX[b / 16]] + [HEX[b % 16]];
    }
    assert Pad(b) == [HEX[b / 16], HEX[b % 16]];
    TwoDigits(HEX[b / 16], HEX[b % 16]);
  }

  lemma HexDigitReadsBack(d: nat)
    requires d < 16
    ensures IsHex(HEX[d]) && HexDigit(HEX[d]) == d
  {
  }

  lemma TwoDigits(x: char, y: char)
    requires IsHex(x) && IsHex(y)
    ensures Pair(x, y) == (16 * HexDigit(x) + HexDigit(y)) as real
  {
    var one: string := [x];
    assert one[..0] == "";
    assert ParseHexInt(one) == HexDigit(x);
    assert [x, y][..1] == one;
  }

  /** A channel becomes a nearest byte, halves up, and the nearer end of the range outside it. */
  lemma ByteIsNearest(x: real)
    ensures if x < 0.0 then Byte(x) == 0 else if x > 255.0 then Byte(x) == 255
      else Byte(x) as real - 0.5 <= x < Byte(x) as real + 0.5
  {
  }

  /** What is stored: '#' and lower-case hex digits, six of them for an opaque colour and eight otherwise. */
  lemma {:induction false} StoredForm(c: Rgba)
    ensures var s := FormatHex(c);
      && |s| == (if c.a >= 1.0 then 7 else 9)
      && s[0] == '#' && forall c :: c in s[1..] ==> '0' <= c <= '9' || 'a' <= c <= 'f'
  {
    hide Pad, Byte;
    var alpha := if c.a >= 1.0 then "" else Pad(Byte(c.a * 255.0));
    Grouped(Pad(Byte(c.r)), Pad(Byte(c.g)), Pad(Byte(c.b)), alpha);
    assert FormatHex(c)[1..] == Pad(Byte(c.r)) + Pad(Byte(c.g)) + Pad(Byte(c.b)) + alpha;
    PadIsLower(Byte(c.r));
    PadIsLower(Byte(c.g));
    PadIsLower(Byte(c.b));
    PadIsLower(Byte(c.a * 255.0));
  }

  lemma {:induction false} PadIsLower(b: nat)
    requires b <= 255
    ensures |Pad(b)| == 2 && forall c :: c in Pad(b) ==> '0' <= c <= '9' || 'a' <= c <= 'f'
  {
    if b >= 16 {
      assert ToHex(b / 16) == [HEX[b / 16]];
    }
  }

  /** Two hex digits are a channel of sixteen times the first and once the second; one digit stands for two of it. */
  lemma {:induction false} DigitsMean(d: string)
    requires AllHex(d)
    ensures |d| == 3 || |d| == 4 || |d| == 6 || |d| == 8 <==> ParseDigits(d).Read?
    ensures |d| == 3 ==> ParseDigits(d) == ParseDigits([d[0], d[0], d[1], d[1], d[2], d[2]])
    ensures |d| == 4 ==> ParseDigits(d) == ParseDigits([d[0], d[0], d[1], d[1], d[2], d[2], d[3], d[3]])
    ensures |d| == 6 || |d| == 8 ==> ParseDigits(d) == Read(Rgba(
      (16 * HexDigit(d[0]) + HexDigit(d[1])) as real,
      (16 * HexDigit(d[2]) + HexDigit(d[3])) as real,
      (16 * HexDigit(d[4]) + HexDigit(d[5])) as real,
      if |d| == 8 then (16 * HexDigit(d[6]) + HexDigit(d[7])) as real / 255.0 else 1.0))
  {
    hide HexDigit, IsHex;
    if |d| == 6 || |d| == 8 {
      TwoDigits(d[0], d[1]);
      TwoDigits(d[2], d[3]);
      TwoDigits(d[4], d[5]);
      TwoDigits(d[|d| - 2], d[|d| - 1]);
    }
  }

  /**
   Hex digits behind a '#' are read as a colour whatever white space is around them; nothing is read without
   the '#'.
   */
  lemma {:induction false} HexIsRead(before: string, digits: string, after: string)
    requires forall c :: c in before || c in after ==> IsSpace(c)
    requires AllHex(digits)
    ensures ParseHexColor(before + ("#" + digits) + after)
      == if 3 <= |digits| <= 8 then ParseDigits(digits) else NotHex
    ensures ParseHexColor(before + digits + after) == if digits == "" then Unreadable else NotHex
  {
    hide ParseDigits;
    var s := "#" + digits;
    assert s[1..] == digits;
    assert digits != "" ==> s[|s| - 1] in digits && digits[0] in digits;
    TrimMeans(before, s, after, IsSpace);
    TrimMeans(before, digits, after, IsSpace);
  }

  lemma NotSpace(s: string)
    requires s != "" && !IsSpace(s[0]) && !IsSpace(s[|s| - 1])
    ensures Trim(s) == s
  {
  }

  /** Printing a colour and reading it back gives its bytes, with the alpha rounded to a 255th. */
  lemma HexRoundTrip(c: Rgba)
    ensures ParseHexColor(FormatHex(c)) == Read(Quantised(c))
  {
    if c.a >= 1.0 {
      OpaqueRoundTrip(c);
    } else {
      TranslucentRoundTrip(c);
    }
  }

  function Quantised(c: Rgba): Rgba {
    Rgba(Byte(c.r) as real, Byte(c.g) as real, Byte(c.b) as real, Byte(c.a * 255.0) as real / 255.0)
  }

  lemma OpaqueRoundTrip(c: Rgba)
    requires c.a >= 1.0
    ensures ParseHexColor(FormatHex(c)) == Read(Quantised(c))
  {
    hide ParseHexColor, FormatBytes;
    assert FormatHex(c) == FormatBytes(Byte(c.r), Byte(c.g), Byte(c.b), None);
    assert Byte(c.a * 255.0) == 255;
    ReadsBytesBack(Byte(c.r), Byte(c.g), Byte(c.b), None);
  }

  lemma TranslucentRoundTrip(c: Rgba)
    requires c.a < 1.0
    ensures ParseHexColor(FormatHex(c)) == Read(Quantised(c))
  {
    hide ParseHexColor, FormatBytes;
    var a := Byte(c.a * 255.0);
    assert FormatHex(c) == FormatBytes(Byte(c.r), Byte(c.g), Byte(c.b), Some(a));
    ReadsBytesBack(Byte(c.r), Byte(c.g), Byte(c.b), Some(a));
  }

  lemma ReadsBytesBack(r: nat, g: nat, b: nat, a: Option<nat>)
    requires r <= 255 && g <= 255 && b <= 255 && a.GetOr(255) <= 255
    ensures ParseHexColor(FormatBytes(r, g, b, a))
      == Read(Rgba(r as real, g as real, b as real, a.GetOr(255) as real / 255.0))
  {
    PadReadsBack(r);
    PadReadsBack(g);
    PadReadsBack(b);
    PadReadsBack(a.GetOr(255));
    var alpha := if a.None? then "" else Pad(a.value);
    Grouped(Pad(r), Pad(g), Pad(b), alpha);
    ReadsHash(Pad(r) + Pad(g) + Pad(b) + alpha);
    if a.None? {
      assert "#" + Pad(r) + Pad(g) + Pad(b) + "" == FormatBytes(r, g, b, a);
    }
  }

  lemma Grouped(r: string, g: string, b: string, a: string)
    ensures "#" + r + g + b + a == "#" + (r + g + b + a)
  {
  }

  lemma ReadsHash(digits: string)
    requires 3 <= |digits| <= 8 && AllHex(digits)
    ensures ParseHexColor("#" + digits) == ParseDigits(digits)
  {
    var s := "#" + digits;
    assert s[|s| - 1] in digits;
    NotSpace(s);
    assert s[1..] == digits;
  }

  /** A stored colour that the editor can read is read the same after the picker rewrites it. */
  lemma StoredColorIsStable(input: string)
    requires ParseHexColor(input).Read?
    ensures ParseHexColor(FormatHex(ParseHexColor(input).color)) == ParseHexColor(input)
  {
    ReadableIsQuantised(input);
    HexRoundTrip(ParseHexColor(input).color);
  }

  lemma ReadableIsQuantised(input: string)
    requires ParseHexColor(input).Read?
    ensures ParseHexColor(input).color == Quantised(ParseHexColor(input).color)
  {
    ReadsBytes(Trim(input)[1..]);
  }

  /** Reading gives bytes, and an alpha that is a whole number of 255ths. */
  lemma ReadsBytes(d: string)
    requires AllHex(d) && ParseDigits(d).Read?
    ensures ParseDigits(d).color == Quantised(ParseDigits(d).color)
  {
    hide Byte, Pair, IsHex;
    var n := |d|;
    if n == 3 || n == 4 {
      PairIsByte(d[0], d[0]);
      PairIsByte(d[1], d[1]);
      PairIsByte(d[2], d[2]);
      PairIsByte(d[n - 1], d[n - 1]);
    } else {
      PairIsByte(d[0], d[1]);
      PairIsByte(d[2], d[3]);
      PairIsByte(d[4], d[5]);
      PairIsByte(d[n - 2], d[n - 1]);
    }
    OpaqueAlpha();
  }

  lemma PairIsByte(x: char, y: char)
    requires IsHex(x) && IsHex(y)
    ensures Byte(Pair(x, y)) as real == Pair(x, y)
    ensures Byte(Pair(x, y) / 255.0 * 255.0) as real / 255.0 == Pair(x, y) / 255.0
  {
    TwoDigits(x, y);
    var n := 16 * HexDigit(x) + HexDigit(y);
    WholeByte(n);
    assert Pair(x, y) / 255.0 * 255.0 == n as real;
  }

  lemma WholeByte(n: nat)
    requires n <= 255
    ensures Byte(n as real) == n
  {
  }

  lemma OpaqueAlpha()
    ensures 1.0 == Byte(1.0 * 255.0) as real / 255.0
  {
    WholeByte(255);
  }

  /** Opening the picker on a stored colour and writing it back unchanged, through HSV, keeps it. */
  lemma PickerKeepsColor(c: Rgba)
    requires c.r == Byte(c.r) as real && c.g == Byte(c.g) as real && c.b == Byte(c.b) as real
    ensures HsvaToRgba(RgbaToHsva(c)) == c
  {
    ConversionIsExact(c);
  }
}
