/** The formatters of a Color: the functional RGB(A) and HSL(A) texts, the
    HEX texts, the keyword lookup and the toString dispatcher. A colour is
    formatted from its channel values and its fixed setting, the number of
    decimals the percentage and HSL(A) texts keep. */
module Format {
  import opened Results
  import opened Text
  import opened Numbers
  import opened Schemes
  import opened Parser

  /** The number of decimals a new Color writes. */
  const DefaultFixed: int := 2

  /** Math.round of a channel value in [0, 255]. */
  function Channel(x: real): (n: nat)
    requires 0.0 <= x <= 255.0
    ensures n <= 255
    ensures n as real - 0.5 <= x < n as real + 0.5
  {
    Round(x)
  }

  /** toFixed(x, digits) as the formatters use it: a RangeError unless the
      digit count lies in 0..100. */
  function ToFixed(x: real, digits: int): (r: Result<string>)
    requires 0.0 <= x <= 1000.0
    ensures r.Failure? <==> !(0 <= digits <= 100)
    ensures r.Failure? ==> r.error == DigitsOutOfRange
    ensures r.Success? ==> r.value == FixedText(x, digits)
  {
    if 0 <= digits <= 100 then Success(FixedText(x, digits)) else Failure(DigitsOutOfRange)
  }

  /** toRGB: the rounded channels in decimal. */
  function ToRGB(c: Rgba): string
    requires c.Valid()
  {
    "rgb(" + Decimal(Channel(c.r)) + "," + Decimal(Channel(c.g)) + "," + Decimal(Channel(c.b)) + ")"
  }

  /** toRGBA: the rounded channels and the alpha with twice the fixed
      decimals; a RangeError when twice the fixed setting lies outside 0..100. */
  function ToRGBA(c: Rgba, fixed: int): (r: Result<string>)
    requires c.Valid()
    ensures r.Failure? <==> !(0 <= 2 * fixed <= 100)
  {
    match ToFixed(c.a, 2 * fixed)
    case Failure(e) => Failure(e)
    case Success(alpha) =>
      Success("rgba(" + Decimal(Channel(c.r)) + "," + Decimal(Channel(c.g)) + "," + Decimal(Channel(c.b)) + "," + alpha + ")")
  }

  /** A channel as a percentage of 255. */
  function Percent(x: real): (p: real)
    requires 0.0 <= x <= 255.0
    ensures 0.0 <= p <= 100.0
  {
    x / 255.0 * 100.0
  }

  /** toPercentageRGB: each channel as a percentage with the fixed decimals. */
  function ToPercentageRGB(c: Rgba, fixed: int): (r: Result<string>)
    requires c.Valid()
    ensures r.Failure? <==> !(0 <= fixed <= 100)
  {
    if 0 <= fixed <= 100 then
      Success("rgb(" + FixedText(Percent(c.r), fixed) + "%," + FixedText(Percent(c.g), fixed) + "%,"
              + FixedText(Percent(c.b), fixed) + "%)")
    else Failure(DigitsOutOfRange)
  }

  /** toPercentageRGBA: toPercentageRGB with the alpha, twice the decimals. */
  function ToPercentageRGBA(c: Rgba, fixed: int): (r: Result<string>)
    requires c.Valid()
    ensures r.Failure? <==> !(0 <= fixed <= 50)
  {
    if 0 <= fixed <= 50 then
      Success("rgba(" + FixedText(Percent(c.r), fixed) + "%," + FixedText(Percent(c.g), fixed) + "%,"
              + FixedText(Percent(c.b), fixed) + "%," + FixedText(c.a, 2 * fixed) + ")")
    else Failure(DigitsOutOfRange)
  }

  /** The HSL values of a colour, hue in degrees and the others in percent. */
  function HslOf(c: Rgba): (hsl: Hsl)
    requires c.Valid()
    ensures 0.0 <= hsl.h < 360.0 && 0.0 <= hsl.s <= 100.0 && 0.0 <= hsl.l <= 100.0
  {
    var v := Rgb2Hsl(c.r, c.g, c.b);
    Hsl(v.h * 360.0, v.s * 100.0, v.l * 100.0)
  }

  /** toHSL: hue, saturation and lightness with the fixed decimals. */
  function ToHSL(c: Rgba, fixed: int): (r: Result<string>)
    requires c.Valid()
    ensures r.Failure? <==> !(0 <= fixed <= 100)
  {
    var v := HslOf(c);
    if 0 <= fixed <= 100 then
      Success("hsl(" + FixedText(v.h, fixed) + "," + FixedText(v.s, fixed) + "%," + FixedText(v.l, fixed) + "%)")
    else Failure(DigitsOutOfRange)
  }

  /** toHSLA: toHSL with the alpha, twice the decimals. */
  function ToHSLA(c: Rgba, fixed: int): (r: Result<string>)
    requires c.Valid()
    ensures r.Failure? <==> !(0 <= fixed <= 50)
  {
    var v := HslOf(c);
    if 0 <= fixed <= 50 then
      Success("hsla(" + FixedText(v.h, fixed) + "," + FixedText(v.s, fixed) + "%," + FixedText(v.l, fixed) + "%,"
              + FixedText(c.a, 2 * fixed) + ")")
    else Failure(DigitsOutOfRange)
  }

  /** A byte as two hex digits: zeroPad2(n.toString(16)). */
  function HexPair(n: nat): string
    requires n < 256
  {
    ZeroPad2(InRadix(n, 16))
  }

  /** The alpha as a byte: Math.round(a * 255). */
  function AlphaByte(a: real): (n: nat)
    requires 0.0 <= a <= 1.0
    ensures n <= 255
  {
    Channel(a * 255.0)
  }

  /** toHEX: '#' and the three rounded channels as hex pairs, upper case. */
  function ToHEX(c: Rgba): string
    requires c.Valid()
  {
    ToUpper("#" + HexPair(Channel(c.r)) + HexPair(Channel(c.g)) + HexPair(Channel(c.b)))
  }

  /** toHEXA: toHEX followed by the alpha byte, upper case. */
  function ToHEXA(c: Rgba): string
    requires c.Valid()
  {
    ToUpper(ToHEX(c) + HexPair(AlphaByte(c.a)))
  }

  /** The key toKeyword looks up: "00000000" for a fully transparent
      colour, otherwise the lower-case six HEX digits followed by "ff". */
  function ReverseKey(c: Rgba): string
    requires c.Valid()
  {
    if c.a == 0.0 then "00000000" else ToLower(ToHEX(c)[1..7]) + "ff"
  }

  /** toKeyword: the keyword colors2keywords holds for the key, or "". */
  function ToKeyword(c: Rgba, reverse: map<string, string>): (name: string)
    requires c.Valid()
    ensures name != "" ==> ReverseKey(c) in reverse && reverse[ReverseKey(c)] == name
    ensures ReverseKey(c) in reverse ==> name == reverse[ReverseKey(c)]
  {
    var key := ReverseKey(c);
    if key in reverse then reverse[key] else ""
  }

  /** The formats toString can dispatch to. */
  datatype Form = RGB | RGBA | PercentageRGB | PercentageRGBA | HSL | HSLA | HEX | HEXA | Keyword

  /** The format toString picks for its argument: the two percentage forms
      and "keyword" by the lower-cased name, the others through the
      method named "to" followed by the upper-cased name; anything else,
      and an argument that is not a string, falls back to HEX. */
  function FormOf(scheme: Option<string>): Form {
    match scheme
    case None => HEX
    case Some(t) =>
      var lower := ToLower(t);
      if lower == "percentagergb" then PercentageRGB
      else if lower == "percentagergba" then PercentageRGBA
      else if lower == "keyword" then Keyword
      else
        var upper := ToUpper(t);
        if upper == "RGB" then RGB
        else if upper == "RGBA" then RGBA
        else if upper == "HSL" then HSL
        else if upper == "HSLA" then HSLA
        else if upper == "HEXA" then HEXA
        else HEX
  }

  /** The text of a colour in a given format. */
  function Render(c: Rgba, fixed: int, reverse: map<string, string>, f: Form): Result<string>
    requires c.Valid()
  {
    match f
    case RGB => Success(ToRGB(c))
    case RGBA => ToRGBA(c, fixed)
    case PercentageRGB => ToPercentageRGB(c, fixed)
    case PercentageRGBA => ToPercentageRGBA(c, fixed)
    case HSL => ToHSL(c, fixed)
    case HSLA => ToHSLA(c, fixed)
    case HEX => Success(ToHEX(c))
    case HEXA => Success(ToHEXA(c))
    case Keyword => Success(ToKeyword(c, reverse))
  }

  /** toString(scheme). */
  function ToString(c: Rgba, fixed: int, reverse: map<string, string>, scheme: Option<string>): Result<string>
    requires c.Valid()
  {
    Render(c, fixed, reverse, FormOf(scheme))
  }

  /** The eight lower-case hex digits of a colour's HEXA text. */
  function HexDigitsOf(c: Rgba): string
    requires c.Valid()
  {
    HexPair(Channel(c.r)) + HexPair(Channel(c.g)) + HexPair(Channel(c.b)) + HexPair(AlphaByte(c.a))
  }

  /** The colour HEXA text stands for: the channels rounded, the alpha
      rounded to a multiple of 1/255. */
  function Quantize(c: Rgba): (q: Rgba)
    requires c.Valid()
    ensures q.Valid()
  {
    Rgba(Channel(c.r) as real, Channel(c.g) as real, Channel(c.b) as real, AlphaByte(c.a) as real / 255.0)
  }

  /** A byte is written as its two hex digits. */
  lemma HexPairDigits(n: nat)
    requires n < 256
    ensures HexPair(n) == [DigitChar(n / 16), DigitChar(n % 16)]
  {
    PaddedByte(n);
  }

  /** The two digits of a byte spell it again. */
  lemma ByteOfPair(n: nat)
    requires n < 256
    ensures Byte(HexPair(n)[0], HexPair(n)[1]) == n
  {
    HexPairDigits(n);
    HexValueOfDigitChar(n / 16);
    HexValueOfDigitChar(n % 16);
  }

  /** Two lower-case hex digits are the pair their byte is written as. */
  lemma PairOfByte(hi: char, lo: char)
    requires IsLowerHex(hi) && IsLowerHex(lo)
    ensures Byte(hi, lo) < 256 && HexPair(Byte(hi, lo)) == [hi, lo]
  {
    var h, l := HexValue(hi), HexValue(lo);
    DigitCharOfHexValue(hi);
    DigitCharOfHexValue(lo);
    DivMod16(h, l);
    HexPairDigits(16 * h + l);
  }

  lemma DivMod16(h: nat, l: nat)
    requires l < 16
    ensures (16 * h + l) / 16 == h && (16 * h + l) % 16 == l
  {
  }

  /** A whole channel value is its own rounding. */
  lemma ChannelOfByte(n: nat)
    requires n < 256
    ensures Channel(n as real) == n
  {
    RoundInteger(n);
  }

  /** An alpha of n/255 is written as the byte n. */
  lemma AlphaOfByte(n: nat)
    requires n < 256
    ensures AlphaByte(n as real / 255.0) == n
  {
    assert n as real / 255.0 * 255.0 == n as real;
    RoundInteger(n);
  }

  /** A byte is written as two lower-case hex digits. */
  lemma HexPairShape(n: nat)
    requires n < 256
    ensures |HexPair(n)| == 2 && IsLowerHex(HexPair(n)[0]) && IsLowerHex(HexPair(n)[1])
  {
    HexPairDigits(n);
  }

  /** Upper-casing twice, around an appended suffix, is upper-casing the
      whole once. */
  lemma UpperAround(p: string, q: string)
    ensures ToUpper(ToUpper("#" + p) + q) == "#" + ToUpper(p + q)
  {
    CaseConcat("#" + p, q);
    UpperTwice("#" + p);
    CaseConcat("#", p + q);
    assert "#" + p + q == "#" + (p + q);
  }

  /** Four pairs of lower-case hex digits make eight of them. */
  lemma FourPairs(p1: string, p2: string, p3: string, p4: string)
    requires |p1| == 2 && IsLowerHex(p1[0]) && IsLowerHex(p1[1])
    requires |p2| == 2 && IsLowerHex(p2[0]) && IsLowerHex(p2[1])
    requires |p3| == 2 && IsLowerHex(p3[0]) && IsLowerHex(p3[1])
    requires |p4| == 2 && IsLowerHex(p4[0]) && IsLowerHex(p4[1])
    ensures var h := p1 + p2 + p3 + p4;
      |h| == 8 && AllLowerHex(h) && h == [p1[0], p1[1], p2[0], p2[1], p3[0], p3[1], p4[0], p4[1]]
  {
  }

  /** toHEXA is '#' and eight hex digits, upper case. */
  lemma HexaShape(c: Rgba)
    requires c.Valid()
    ensures |HexDigitsOf(c)| == 8 && AllLowerHex(HexDigitsOf(c))
    ensures ToHEXA(c) == "#" + ToUpper(HexDigitsOf(c))
  {
    var p1, p2, p3, p4 := HexPair(Channel(c.r)), HexPair(Channel(c.g)), HexPair(Channel(c.b)), HexPair(AlphaByte(c.a));
    HexPairShape(Channel(c.r));
    HexPairShape(Channel(c.g));
    HexPairShape(Channel(c.b));
    HexPairShape(AlphaByte(c.a));
    FourPairs(p1, p2, p3, p4);
    UpperAround(p1 + p2 + p3, p4);
    assert "#" + p1 + p2 + p3 == "#" + (p1 + p2 + p3);
  }

  /** The colour of four pairs of hex digits is their four bytes. */
  lemma HexRgbaOfPairs(p1: string, p2: string, p3: string, p4: string)
    requires |p1| == 2 && IsLowerHex(p1[0]) && IsLowerHex(p1[1])
    requires |p2| == 2 && IsLowerHex(p2[0]) && IsLowerHex(p2[1])
    requires |p3| == 2 && IsLowerHex(p3[0]) && IsLowerHex(p3[1])
    requires |p4| == 2 && IsLowerHex(p4[0]) && IsLowerHex(p4[1])
    ensures |p1 + p2 + p3 + p4| == 8 && AllLowerHex(p1 + p2 + p3 + p4)
    ensures HexRgba(p1 + p2 + p3 + p4)
         == Rgba(Byte(p1[0], p1[1]) as real, Byte(p2[0], p2[1]) as real, Byte(p3[0], p3[1]) as real,
                 Byte(p4[0], p4[1]) as real / 255.0)
  {
    FourPairs(p1, p2, p3, p4);
  }

  /** Reading back the digits of a colour gives the colour quantized. */
  lemma HexRgbaOfDigits(c: Rgba)
    requires c.Valid()
    ensures |HexDigitsOf(c)| == 8 && AllLowerHex(HexDigitsOf(c))
    ensures HexRgba(HexDigitsOf(c)) == Quantize(c)
  {
    var n1, n2, n3, n4 := Channel(c.r), Channel(c.g), Channel(c.b), AlphaByte(c.a);
    HexPairShape(n1);
    HexPairShape(n2);
    HexPairShape(n3);
    HexPairShape(n4);
    HexRgbaOfPairs(HexPair(n1), HexPair(n2), HexPair(n3), HexPair(n4));
    ByteOfPair(n1);
    ByteOfPair(n2);
    ByteOfPair(n3);
    ByteOfPair(n4);
  }

  /** The digits of a colour whose channels are bytes are those bytes'
      pairs. */
  lemma DigitsOfBytes(b0: nat, b1: nat, b2: nat, b3: nat)
    requires b0 < 256 && b1 < 256 && b2 < 256 && b3 < 256
    ensures Rgba(b0 as real, b1 as real, b2 as real, b3 as real / 255.0).Valid()
    ensures HexDigitsOf(Rgba(b0 as real, b1 as real, b2 as real, b3 as real / 255.0))
         == HexPair(b0) + HexPair(b1) + HexPair(b2) + HexPair(b3)
  {
    ChannelOfByte(b0);
    ChannelOfByte(b1);
    ChannelOfByte(b2);
    AlphaOfByte(b3);
  }

  /** Eight characters are their four pairs, joined. */
  lemma EightAsPairs(s: string)
    requires |s| == 8
    ensures s == [s[0], s[1]] + [s[2], s[3]] + [s[4], s[5]] + [s[6], s[7]]
  {
  }

  /** The digits of the colour eight hex digits spell are those digits. */
  lemma DigitsOfHexRgba(s: string)
    requires |s| == 8 && AllLowerHex(s)
    ensures HexDigitsOf(HexRgba(s)) == s
  {
    var b0, b1, b2, b3 := Byte(s[0], s[1]), Byte(s[2], s[3]), Byte(s[4], s[5]), Byte(s[6], s[7]);
    PairOfByte(s[0], s[1]);
    PairOfByte(s[2], s[3]);
    PairOfByte(s[4], s[5]);
    PairOfByte(s[6], s[7]);
    assert HexRgba(s) == Rgba(b0 as real, b1 as real, b2 as real, b3 as real / 255.0);
    DigitsOfBytes(b0, b1, b2, b3);
    EightAsPairs(s);
  }

  /** toHEXA of the colour "#" + s parses to is "#" and s in upper case. */
  lemma HexaOfHex(k: Keywords, context: Option<string>, s: string)
    requires |s| == 8 && AllLowerHex(s)
    requires "#" + s !in k
    ensures Parse(k, context, "#" + s).Success?
    ensures ToHEXA(Parse(k, context, "#" + s).value) == "#" + ToUpper(s)
  {
    ParseHex(k, context, s);
    DigitsOfHexRgba(s);
    HexaShape(HexRgba(s));
  }

  /** HEXA text parses back to the colour it was written from, quantized,
      unless it has been made a keyword. */
  lemma ParseHexa(k: Keywords, context: Option<string>, c: Rgba)
    requires c.Valid()
    requires ToLower(ToHEXA(c)) !in k
    ensures Parse(k, context, ToHEXA(c)) == Success(Quantize(c))
  {
    var h := HexDigitsOf(c);
    HexaShape(c);
    NormalizeUpperHex(h);
    ParseNormalized(k, context, ToHEXA(c));
    ParseHex(k, context, h);
    HexRgbaOfDigits(c);
  }

  /** Upper-case HEX text normalizes to its lower-case digits. */
  lemma NormalizeUpperHex(h: string)
    requires |h| == 8 && AllLowerHex(h)
    ensures ToLower("#" + ToUpper(h)) == "#" + h
    ensures Normalize("#" + ToUpper(h)) == "#" + h
  {
    CaseConcat("#", ToUpper(h));
    LowerUpperHex(h);
    TrimUnchanged("#" + ToUpper(h));
  }

  /** Quantizing is idempotent: HEXA text is a fixed point of the round trip. */
  lemma QuantizeIdempotent(c: Rgba)
    requires c.Valid()
    ensures Quantize(Quantize(c)) == Quantize(c)
  {
    var q := Quantize(c);
    RoundInteger(Channel(c.r));
    RoundInteger(Channel(c.g));
    RoundInteger(Channel(c.b));
    assert q.a * 255.0 == AlphaByte(c.a) as real;
    RoundInteger(AlphaByte(c.a));
  }

  /** The format of each scheme name, written in lower case: the names
      Color.RGB, Color.RGBA, Color.HSL, Color.HSLA, Color.HEX, Color.HEXA and
      Color.KEYWORD stand for, and the two percentage forms. */
  function FormNamed(name: string): Form {
    if name == "rgb" then RGB
    else if name == "rgba" then RGBA
    else if name == "percentagergb" then PercentageRGB
    else if name == "percentagergba" then PercentageRGBA
    else if name == "hsl" then HSL
    else if name == "hsla" then HSLA
    else if name == "hexa" then HEXA
    else if name == "keyword" then Keyword
    else HEX
  }

  /** Comparing the upper case of a name with a word of capitals is
      comparing the two in lower case. */
  lemma UpperMatches(t: string, w: string)
    requires forall i :: 0 <= i < |w| ==> !('a' <= w[i] <= 'z')
    ensures ToUpper(t) == w <==> ToLower(t) == ToLower(w)
  {
    LowerOfUpper(t);
    UpperLowerNoLower(w);
  }

  lemma CapitalNames()
    ensures ToLower("RGB") == "rgb" && ToLower("RGBA") == "rgba"
    ensures ToLower("HSL") == "hsl" && ToLower("HSLA") == "hsla"
    ensures ToLower("HEXA") == "hexa"
  {
  }

  /** toString is case-insensitive: the format depends on the lower-cased
      name alone, and an unknown name means HEX. */
  lemma FormOfByName(t: string)
    ensures FormOf(Some(t)) == FormNamed(ToLower(t))
  {
    CapitalNames();
    UpperMatches(t, "RGB");
    UpperMatches(t, "RGBA");
    UpperMatches(t, "HSL");
    UpperMatches(t, "HSLA");
    UpperMatches(t, "HEXA");
  }

  /** A scheme name given in any case selects the same text. */
  lemma ToStringCaseInsensitive(c: Rgba, fixed: int, reverse: map<string, string>, t: string)
    requires c.Valid()
    ensures ToString(c, fixed, reverse, Some(t)) == ToString(c, fixed, reverse, Some(ToLower(t)))
    ensures ToString(c, fixed, reverse, Some(t)) == ToString(c, fixed, reverse, Some(ToUpper(t)))
  {
    FormOfByName(t);
    FormOfByName(ToLower(t));
    FormOfByName(ToUpper(t));
    LowerKeepsSpace(t);
    LowerOfUpper(t);
  }

  /** Without a string argument, toString gives toHEX. */
  lemma ToStringDefault(c: Rgba, fixed: int, reverse: map<string, string>)
    requires c.Valid()
    ensures ToString(c, fixed, reverse, None) == Success(ToHEX(c))
  {
  }

  /** An opaque alpha is written "1" and a transparent one "0", whatever
      the fixed setting. */
  lemma ToRGBAAlpha(c: Rgba, fixed: int)
    requires c.Valid() && 0 <= 2 * fixed <= 100
    ensures c.a == 1.0 ==> ToRGBA(c, fixed) == Success("rgba(" + Decimal(Channel(c.r)) + "," + Decimal(Channel(c.g)) + "," + Decimal(Channel(c.b)) + ",1)")
    ensures c.a == 0.0 ==> ToRGBA(c, fixed) == Success("rgba(" + Decimal(Channel(c.r)) + "," + Decimal(Channel(c.g)) + "," + Decimal(Channel(c.b)) + ",0)")
  {
    var pre := "rgba(" + Decimal(Channel(c.r)) + "," + Decimal(Channel(c.g)) + "," + Decimal(Channel(c.b));
    if c.a == 1.0 {
      FixedWhole(1, 2 * fixed);
      assert Decimal(1) == "1";
      assert pre + "," + "1" + ")" == pre + ",1)";
    }
    if c.a == 0.0 {
      FixedWhole(0, 2 * fixed);
      assert Decimal(0) == "0";
      assert pre + "," + "0" + ")" == pre + ",0)";
    }
  }

  /** The key toKeyword looks up for a colour that is not fully transparent
      is its first six hex digits and "ff". */
  lemma ReverseKeyDigits(c: Rgba)
    requires c.Valid() && c.a != 0.0
    ensures |HexDigitsOf(c)| == 8
    ensures ReverseKey(c) == HexDigitsOf(c)[..6] + "ff"
  {
    HexOfDigits(c);
    LowerAfterHash(ToHEX(c), HexDigitsOf(c)[..6]);
  }

  /** Lower-casing the six characters after the '#' of upper-cased hex
      digits gives the digits back. */
  lemma LowerAfterHash(h: string, d: string)
    requires |d| == 6 && AllLowerHex(d)
    requires h == "#" + ToUpper(d)
    ensures ToLower(h[1..7]) == d
  {
    assert h[1..7] == ToUpper(d);
    LowerUpperHex(d);
  }

  /** toHEX is '#' and the first six hex digits, upper case. */
  lemma HexOfDigits(c: Rgba)
    requires c.Valid()
    ensures |HexDigitsOf(c)| == 8 && AllLowerHex(HexDigitsOf(c)[..6])
    ensures ToHEX(c) == "#" + ToUpper(HexDigitsOf(c)[..6])
  {
    var p1, p2, p3, p4 := HexPair(Channel(c.r)), HexPair(Channel(c.g)), HexPair(Channel(c.b)), HexPair(AlphaByte(c.a));
    HexPairShape(Channel(c.r));
    HexPairShape(Channel(c.g));
    HexPairShape(Channel(c.b));
    HexPairShape(AlphaByte(c.a));
    var d := p1 + p2 + p3;
    assert HexDigitsOf(c) == d + p4;
    assert HexDigitsOf(c)[..6] == d;
    assert "#" + p1 + p2 + p3 == "#" + d;
    CaseConcat("#", d);
  }

  /** The keys of colors2keywords are keys toKeyword can find: a colour read
      from eight hex digits that are opaque, or all zero, looks up exactly
      those digits. */
  lemma ReverseKeyOfHex(h: string)
    requires |h| == 8 && AllLowerHex(h)
    requires h[6..] == "ff" || h == "00000000"
    ensures ReverseKey(HexRgba(h)) == h
  {
    var c := HexRgba(h);
    DigitsOfHexRgba(h);
    if h == "00000000" {
      assert Byte(h[6], h[7]) == 0;
    } else {
      assert Byte(h[6], h[7]) == 255;
      ReverseKeyDigits(c);
      assert h == h[..6] + h[6..];
    }
  }

  /** A colour given by a keyword names that keyword again, as long as the
      two tables agree on it. */
  lemma KeywordRoundTrip(k: Keywords, reverse: map<string, string>, context: Option<string>,
                         name: string, h: string)
    requires Normalize(name) in k && k[Normalize(name)] == Canonical(h)
    requires |h| == 8 && AllLowerHex(h)
    requires h[6..] == "ff" || h == "00000000"
    requires h in reverse
    ensures Parse(k, context, name).Success?
    ensures ToKeyword(Parse(k, context, name).value, reverse) == reverse[h]
  {
    ParseKeyword(k, context, name, h);
    ReverseKeyOfHex(h);
  }

  /** toFixed writes the whole number nearest to x * 10^digits. */
  lemma FixedNearest(x: real, digits: nat, k: nat)
    requires 0.0 <= x < 1000000000000000000000.0
    requires k as real - 0.5 <= x * Pow10(digits) as real < k as real + 0.5
    ensures FixedText(x, digits) == DecimalText(k, digits)
  {
    RoundNearest(x * Pow10(digits) as real, k);
  }

  /** The green of gold, 215 of 255, as a percentage with the default two
      decimals, and with three and six. */
  lemma GoldGreen2()
    ensures FixedText(Percent(215.0), 2) == "84.31"
  {
    var x := Percent(215.0);
    assert x == 21500.0 / 255.0;
    assert Pow10(2) == 100;
    FixedNearest(x, 2, 8431);
    GoldText2();
  }

  lemma GoldText2()
    ensures DecimalText(8431, 2) == "84.31"
  {
    GoldDigits2();
    DecimalTextPoint(8431, 2, "8431");
    assert "8431"[..2] == "84" && "8431"[2..] == "31";
  }

  lemma GoldDigits2()
    ensures Decimal(8431) == "8431"
  {
  }

  lemma GoldGreen3()
    ensures FixedText(Percent(215.0), 3) == "84.314"
  {
    var x := Percent(215.0);
    assert x == 21500.0 / 255.0;
    assert Pow10(3) == 1000;
    FixedNearest(x, 3, 84314);
    GoldText3();
  }

  lemma GoldText3()
    ensures DecimalText(84314, 3) == "84.314"
  {
    GoldDigits3();
    DecimalTextPoint(84314, 3, "84314");
    assert "84314"[..2] == "84" && "84314"[2..] == "314";
  }

  lemma GoldDigits3()
    ensures Decimal(84314) == "84314"
  {
  }

  lemma GoldGreen6()
    ensures FixedText(Percent(215.0), 6) == "84.313725"
  {
    var x := Percent(215.0);
    assert x == 21500.0 / 255.0;
    assert Pow10(6) == 1000000;
    FixedNearest(x, 6, 84313725);
    GoldText6();
  }

  lemma GoldText6()
    ensures DecimalText(84313725, 6) == "84.313725"
  {
    GoldDigits6();
    DecimalTextPoint(84313725, 6, "84313725");
    assert "84313725"[..2] == "84" && "84313725"[2..] == "313725";
  }

  lemma GoldDigits6()
    ensures Decimal(84313725) == "84313725"
  {
  }

  /** The other fields of gold in percentage form: 100, 0 and an alpha of 1,
      whatever the decimals. */
  lemma GoldWholeFields(fixed: nat)
    requires fixed <= 50
    ensures FixedText(Percent(255.0), fixed) == "100"
    ensures FixedText(Percent(0.0), fixed) == "0"
    ensures FixedText(1.0, 2 * fixed) == "1"
  {
    assert Percent(255.0) == 100.0;
    assert Percent(0.0) == 0.0;
    FixedWhole(100, fixed);
    FixedWhole(0, fixed);
    FixedWhole(1, 2 * fixed);
    SmallDecimals();
  }

  lemma SmallDecimals()
    ensures Decimal(100) == "100" && Decimal(0) == "0" && Decimal(1) == "1"
  {
  }

  /** toPercentageRGBA of gold (255, 215, 0, opaque) with the default
      fixed setting, and after setFixed(3) and setFixed(6). */
  lemma GoldPercentageRGBA2()
    ensures ToPercentageRGBA(Rgba(255.0, 215.0, 0.0, 1.0), 2) == Success("rgba(100%,84.31%,0%,1)")
  {
    GoldGreen2();
    GoldWholeFields(2);
    GoldJoin2();
  }

  lemma GoldJoin2()
    ensures "rgba(" + "100" + "%," + "84.31" + "%," + "0" + "%," + "1" + ")" == "rgba(100%,84.31%,0%,1)"
  {
  }

  lemma GoldPercentageRGBA3()
    ensures ToPercentageRGBA(Rgba(255.0, 215.0, 0.0, 1.0), 3) == Success("rgba(100%,84.314%,0%,1)")
  {
    GoldGreen3();
    GoldWholeFields(3);
    GoldJoin3();
  }

  lemma GoldJoin3()
    ensures "rgba(" + "100" + "%," + "84.314" + "%," + "0" + "%," + "1" + ")" == "rgba(100%,84.314%,0%,1)"
  {
  }

  lemma GoldPercentageRGBA6()
    ensures ToPercentageRGBA(Rgba(255.0, 215.0, 0.0, 1.0), 6) == Success("rgba(100%,84.313725%,0%,1)")
  {
    GoldGreen6();
    GoldWholeFields(6);
    GoldJoin6();
  }

  lemma GoldJoin6()
    ensures "rgba(" + "100" + "%," + "84.313725" + "%," + "0" + "%," + "1" + ")" == "rgba(100%,84.313725%,0%,1)"
  {
  }
}
