/**
 * `Color` from the JavaScript rendering framework: r, g, b channels on a
 * 0-255 scale and an alpha on a 0-1 scale, with the `hex` getter and setter,
 * `setRGBA` and `inversed`.
 *
 * The channels are only ever written with `Math.round`, `parseInt` or
 * `255 - x` of such values, so each one is an integer or NaN; alpha is any
 * number or NaN.  Infinities are not modelled.
 */
module Color {

  datatype Channel = Int(v: int) | NaN

  datatype Alpha = Num(v: real) | AlphaNaN

  datatype Rgba = Rgba(r: Channel, g: Channel, b: Channel, a: Alpha)

  /** What `setRGBA` can be passed: a number, NaN, or a value whose `typeof` is not "number". */
  datatype Arg = Number(n: real) | NaNNumber | NotNumber

  const Black := Rgba(Int(0), Int(0), Int(0), Num(1.0))

  // ---------------------------------------------------------------------
  // Number formatting: `Number.prototype.toString(16)` on integers.

  function HexDigit(d: nat): (c: char)
    requires d < 16
    ensures '0' <= c <= '9' || 'a' <= c <= 'f'
  {
    if d < 10 then (48 + d) as char else (97 + d - 10) as char
  }

  function ToHexString(n: nat): (s: string)
    ensures |s| >= 1
    decreases n
  {
    if n < 16 then [HexDigit(n)] else ToHexString(n / 16) + [HexDigit(n % 16)]
  }

  function ChannelString(c: Channel): string
  {
    match c
    case NaN => "NaN"
    case Int(v) => if v < 0 then "-" + ToHexString(-v) else ToHexString(v)
  }

  /** A single digit gets a leading "0"; anything longer is kept as it is. */
  function Padded(s: string): string
  {
    if |s| == 1 then "0" + s else s
  }

  /**
   * The `hex` getter: "#" and each of r, g, b in base 16, no alpha.  For
   * byte channels that is "#" and six lower-case hex digits.
   */
  function HexOf(c: Rgba): (s: string)
    ensures |s| >= 7 && s[0] == '#'
    ensures IsByte(c.r) && IsByte(c.g) && IsByte(c.b) ==>
      |s| == 7 && forall k :: 1 <= k < 7 ==> ('0' <= s[k] <= '9') || ('a' <= s[k] <= 'f')
  {
    if IsByte(c.r) && IsByte(c.g) && IsByte(c.b) then
      PaddedByte(c.r.v);
      PaddedByte(c.g.v);
      PaddedByte(c.b.v);
      "#" + Padded(ChannelString(c.r)) + Padded(ChannelString(c.g)) + Padded(ChannelString(c.b))
    else
      "#" + Padded(ChannelString(c.r)) + Padded(ChannelString(c.g)) + Padded(ChannelString(c.b))
  }

  // ---------------------------------------------------------------------
  // Number parsing: `parseInt(s, 16)`.

  /** ECMAScript white space and line terminators, which `parseInt` skips. */
  predicate IsJsSpace(c: char)
  {
    var u := c as int;
    (9 <= u <= 13) || u == 0x20 || u == 0xA0 || u == 0x1680 || (0x2000 <= u <= 0x200A)
    || u == 0x2028 || u == 0x2029 || u == 0x202F || u == 0x205F || u == 0x3000 || u == 0xFEFF
  }

  predicate IsHexDigit(c: char)
  {
    ('0' <= c <= '9') || ('a' <= c <= 'f') || ('A' <= c <= 'F')
  }

  function DigitValue(c: char): (d: nat)
    requires IsHexDigit(c)
    ensures d < 16
  {
    if '0' <= c <= '9' then c as int - 48
    else if 'a' <= c <= 'f' then c as int - 97 + 10
    else c as int - 65 + 10
  }

  function TrimStart(s: string): (t: string)
    ensures |t| <= |s| && (|t| == 0 || !IsJsSpace(t[0]))
  {
    if |s| > 0 && IsJsSpace(s[0]) then TrimStart(s[1..]) else s
  }

  /** The longest prefix made of hex digits. */
  function HexPrefix(s: string): (p: string)
    ensures |p| <= |s| && forall k :: 0 <= k < |p| ==> IsHexDigit(p[k])
  {
    if |s| > 0 && IsHexDigit(s[0]) then [s[0]] + HexPrefix(s[1..]) else []
  }

  function HexValue(z: string): nat
    requires forall k :: 0 <= k < |z| ==> IsHexDigit(z[k])
  {
    if |z| == 0 then 0 else 16 * HexValue(z[..|z| - 1]) + DigitValue(z[|z| - 1])
  }

  /** `parseInt(s, 16)`: skip white space, take a sign, drop a "0x" prefix, read the hex digits that follow. */
  function ParseInt16(s: string): Channel
  {
    var t := TrimStart(s);
    var negative := |t| > 0 && t[0] == '-';
    var u := if |t| > 0 && (t[0] == '-' || t[0] == '+') then t[1..] else t;
    var w := if |u| >= 2 && u[0] == '0' && (u[1] == 'x' || u[1] == 'X') then u[2..] else u;
    var z := HexPrefix(w);
    var value: int := HexValue(z);
    if |z| == 0 then NaN else Int(if negative then -value else value)
  }

  // ---------------------------------------------------------------------
  // The `hex` setter.

  /** Two digits per component when more than five follow the '#', else one. */
  function SkipRate(body: string): nat
  {
    if |body| > 5 then 2 else 1
  }

  /** The number of components read: `floor(length / skipRate)`. */
  function ComponentCount(body: string): nat
  {
    |body| / SkipRate(body)
  }

  /** Component i: its substring, a lone character doubled, parsed in base 16. */
  function Component(body: string, i: nat): Channel
    requires i < ComponentCount(body)
  {
    var k := SkipRate(body);
    var part := body[i * k .. i * k + k];
    ParseInt16(if |part| == 1 then part + part else part)
  }

  function AlphaOf(c: Channel): Alpha
  {
    match c
    case NaN => AlphaNaN
    case Int(v) => Num(v as real / 255.0)
  }

  /**
   * The colour after the first `done` components of `body` have been read
   * over the defaults r = g = b = 0, a = 1; components beyond the fourth are
   * read and discarded.
   */
  function ReadComponents(body: string, done: nat): Rgba
    requires done <= ComponentCount(body)
  {
    Rgba(if 0 < done then Component(body, 0) else Int(0),
         if 1 < done then Component(body, 1) else Int(0),
         if 2 < done then Component(body, 2) else Int(0),
         if 3 < done then AlphaOf(Component(body, 3)) else Num(1.0))
  }

  /**
   * The colour the `hex` setter leaves behind.  A string not starting with
   * '#' leaves the colour unchanged.  Otherwise the colour is reset to
   * r = g = b = 0, a = 1 first: a string with k components leaves every
   * component from the k-th on at that default, whatever it was before.
   */
  function HexSet(prev: Rgba, hex: string): (c: Rgba)
    ensures |hex| == 0 || hex[0] != '#' ==> c == prev
    ensures |hex| > 0 && hex[0] == '#' ==>
      var k := ComponentCount(hex[1..]);
      (k <= 0 ==> c.r == Int(0)) && (k <= 1 ==> c.g == Int(0))
      && (k <= 2 ==> c.b == Int(0)) && (k <= 3 ==> c.a == Num(1.0))
    ensures |hex| > 0 && hex[0] == '#' && |hex| <= 3 ==> c.b == Int(0) && c.a == Num(1.0)
  {
    if |hex| == 0 || hex[0] != '#' then prev
    else ReadComponents(hex[1..], ComponentCount(hex[1..]))
  }

  // ---------------------------------------------------------------------
  // setRGBA and inversed.

  /** `Math.round`: the nearest integer, halves rounded up. */
  function Round(x: real): int
  {
    (x + 0.5).Floor
  }

  function ChannelArg(p: Arg): Channel
  {
    match p
    case Number(n) => Int(Round(n))
    case NaNNumber => NaN
    case NotNumber => Int(0)
  }

  function AlphaArg(p: Arg): Alpha
  {
    match p
    case Number(n) => Num(n)
    case NaNNumber => AlphaNaN
    case NotNumber => Num(1.0)
  }

  function RgbaFromArgs(r: Arg, g: Arg, b: Arg, a: Arg): Rgba
  {
    Rgba(ChannelArg(r), ChannelArg(g), ChannelArg(b), AlphaArg(a))
  }

  /** A channel as a number argument: `255 - NaN` is NaN, which is still of type "number". */
  function InverseArg(c: Channel): Arg
  {
    match c
    case NaN => NaNNumber
    case Int(v) => Number((255 - v) as real)
  }

  function AlphaAsArg(a: Alpha): Arg
  {
    match a
    case AlphaNaN => NaNNumber
    case Num(v) => Number(v)
  }

  /** `inversed`: `new Color(255 - r, 255 - g, 255 - b, a)`, which goes through `setRGBA`. */
  function InverseOf(c: Rgba): Rgba
  {
    RgbaFromArgs(InverseArg(c.r), InverseArg(c.g), InverseArg(c.b), AlphaAsArg(c.a))
  }

  // ---------------------------------------------------------------------
  // The object.

  class Color {
    var r: Channel
    var g: Channel
    var b: Channel
    var a: Alpha

    function Value(): Rgba
      reads this
    {
      Rgba(r, g, b, a)
    }

    /** `new Color()`: black, fully opaque. */
    constructor ()
      ensures Value() == Black
    {
      r, g, b, a := Int(0), Int(0), Int(0), Num(1.0);
    }

    /** The `hex` getter. */
    function Hex(): string
      reads this
    {
      HexOf(Value())
    }

    /** The `hex` setter. */
    method SetHex(hex: string)
      modifies this
      ensures Value() == HexSet(old(Value()), hex)
    {
      if |hex| == 0 || hex[0] != '#' {
        return;
      }
      r, g, b, a := Int(0), Int(0), Int(0), Num(1.0);
      var body := hex[1..];
      var skipRate := if |body| > 5 then 2 else 1;
      var ceil := |body| / skipRate;
      var i := 0;
      while i < ceil
        invariant 0 <= i <= ceil
        invariant Value() == ReadComponents(body, i)
      {
        var part := body[i * skipRate .. i * skipRate + skipRate];
        if |part| == 1 {
          part := part + part;
        }
        var comp := ParseInt16(part);
        if i == 0 {
          r := comp;
        } else if i == 1 {
          g := comp;
        } else if i == 2 {
          b := comp;
        } else if i == 3 {
          a := AlphaOf(comp);
        }
        i := i + 1;
      }
    }

    /** `setRGBA(pR, pG, pB, pA)`. */
    method SetRGBA(pr: Arg, pg: Arg, pb: Arg, pa: Arg)
      modifies this
      ensures Value() == RgbaFromArgs(pr, pg, pb, pa)
    {
      r := ChannelArg(pr);
      g := ChannelArg(pg);
      b := ChannelArg(pb);
      a := AlphaArg(pa);
    }

    /** The `inversed` getter: a new colour; this one is left alone. */
    method Inversed() returns (c: Color)
      ensures fresh(c) && c.Value() == InverseOf(Value())
    {
      c := new Color();
      c.SetRGBA(InverseArg(r), InverseArg(g), InverseArg(b), AlphaAsArg(a));
    }
  }

  // ---------------------------------------------------------------------
  // Properties.

  /** One digit per component up to five digits, two from six on. */
  lemma SkipRateByLength(body: string)
    ensures |body| <= 5 ==> ComponentCount(body) == |body|
    ensures |body| > 5 ==> ComponentCount(body) == |body| / 2
  {
  }

  lemma HexDigitIsDigit(d: nat)
    requires d < 16
    ensures IsHexDigit(HexDigit(d)) && DigitValue(HexDigit(d)) == d
    ensures !IsJsSpace(HexDigit(d)) && HexDigit(d) != '-' && HexDigit(d) != '+'
    ensures HexDigit(d) != 'x' && HexDigit(d) != 'X'
  {
  }

  /** Two hex digits read back as the byte they spell. */
  lemma {:induction false} ParseTwoDigits(hi: nat, lo: nat)
    requires hi < 16 && lo < 16
    ensures ParseInt16([HexDigit(hi), HexDigit(lo)]) == Int(16 * hi + lo)
  {
    var s := [HexDigit(hi), HexDigit(lo)];
    HexDigitIsDigit(hi);
    HexDigitIsDigit(lo);
    assert TrimStart(s) == s;
    assert HexPrefix(s[1..][1..]) == [];
    assert HexPrefix(s[1..]) == s[1..];
    assert HexPrefix(s) == s;
    assert s[..1] == [HexDigit(hi)];
    assert HexValue([HexDigit(hi)]) == hi by {
      assert [HexDigit(hi)][..0] == [];
    }
  }

  /** A lone hex digit is doubled, so "F" reads as "FF". */
  lemma ShortComponentDoubled(d: nat)
    requires d < 16
    ensures ParseInt16([HexDigit(d)] + [HexDigit(d)]) == Int(17 * d)
  {
    ParseTwoDigits(d, d);
    assert [HexDigit(d)] + [HexDigit(d)] == [HexDigit(d), HexDigit(d)];
  }

  /** A channel in 0..255 formats as exactly two lower-case hex digits. */
  lemma PaddedByte(n: nat)
    requires n < 256
    ensures Padded(ChannelString(Int(n))) == [HexDigit(n / 16), HexDigit(n % 16)]
  {
    if n >= 16 {
      assert ToHexString(n / 16) == [HexDigit(n / 16)];
    }
  }

  predicate IsByte(c: Channel) { c.Int? && 0 <= c.v < 256 }

  /**
   * Setting `hex` to what the getter returns restores r, g and b for byte
   * channels and resets alpha to 1, since the getter writes no alpha.
   */
  lemma {:induction false} HexRoundTrip(prev: Rgba, c: Rgba)
    requires IsByte(c.r) && IsByte(c.g) && IsByte(c.b)
    ensures HexSet(prev, HexOf(c)) == Rgba(c.r, c.g, c.b, Num(1.0))
  {
    var r, g, b := c.r.v, c.g.v, c.b.v;
    PaddedByte(r);
    PaddedByte(g);
    PaddedByte(b);
    var pr, pg, pb := [HexDigit(r / 16), HexDigit(r % 16)], [HexDigit(g / 16), HexDigit(g % 16)],
                      [HexDigit(b / 16), HexDigit(b % 16)];
    var hex := HexOf(c);
    assert hex == "#" + (pr + pg + pb);
    assert hex[1..] == pr + pg + pb;
    ReadThreePairs(pr, pg, pb);
    assert HexSet(prev, hex) == ReadComponents(pr + pg + pb, 3);
    ParseByte(r);
    ParseByte(g);
    ParseByte(b);
  }

  /** The two digits of a byte read back as that byte. */
  lemma ParseByte(n: nat)
    requires n < 256
    ensures ParseInt16([HexDigit(n / 16), HexDigit(n % 16)]) == Int(n)
  {
    ParseTwoDigits(n / 16, n % 16);
  }

  /** Six characters are read as three two-character components. */
  lemma ReadThreePairs(pr: string, pg: string, pb: string)
    requires |pr| == 2 && |pg| == 2 && |pb| == 2
    ensures ComponentCount(pr + pg + pb) == 3
    ensures ReadComponents(pr + pg + pb, 3)
         == Rgba(ParseInt16(pr), ParseInt16(pg), ParseInt16(pb), Num(1.0))
  {
    var body := pr + pg + pb;
    assert body[0..2] == pr;
    assert body[2..4] == pg;
    assert body[4..6] == pb;
  }

  /** A fourth component sets alpha to its value over 255. */
  lemma FourthComponentIsAlpha(body: string)
    requires ComponentCount(body) >= 4 && Component(body, 3).Int?
    ensures ReadComponents(body, ComponentCount(body)).a == Num(Component(body, 3).v as real / 255.0)
  {
  }

  /** `setRGBA` rounds numbers, maps non-numbers to 0 and defaults alpha to 1. */
  lemma SetRGBADefaults(x: real)
    ensures RgbaFromArgs(NotNumber, NotNumber, NotNumber, NotNumber) == Black
    ensures RgbaFromArgs(Number(x), NotNumber, NotNumber, NotNumber).r == Int(Round(x))
    ensures Round(x) as real <= x + 0.5 < Round(x) as real + 1.0
  {
  }

  /** `inversed` maps each integer channel v to 255 - v, keeps NaN and alpha, and is its own inverse. */
  lemma InversedChannels(c: Rgba)
    ensures c.r.Int? ==> InverseOf(c).r == Int(255 - c.r.v)
    ensures c.r.NaN? ==> InverseOf(c).r.NaN?
    ensures InverseOf(c).a == c.a
    ensures InverseOf(InverseOf(c)) == c
  {
    InverseChannel(c.r);
    InverseChannel(c.g);
    InverseChannel(c.b);
  }

  lemma InverseChannel(ch: Channel)
    ensures ch.Int? ==> ChannelArg(InverseArg(ch)) == Int(255 - ch.v)
    ensures ch.NaN? ==> ChannelArg(InverseArg(ch)) == NaN
    ensures ChannelArg(InverseArg(ChannelArg(InverseArg(ch)))) == ch
  {
    if ch.Int? {
      RoundInteger(255 - ch.v);
      RoundInteger(ch.v);
    }
  }

  lemma RoundInteger(v: int)
    ensures Round(v as real) == v
  {
  }
}
