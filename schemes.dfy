/** The three parsing schemes of the engine, each a pattern and a process
    function from the captures of a match to raw (unchecked) channel values:
    HSL(A), RGB(A) and HEX, declared in that order. */
module Schemes {
  import opened Results
  import opened Text
  import opened Numbers
  import opened Regex

  /** The raw channel values a process function returns, before the
      constructor's range checks. */
  datatype Quad = Quad(r: Num, g: Num, b: Num, a: Num)

  const Ws: Re := Star(Space)                                   // \s*
  const Digits: Re := Plus(Digit)                               // \d+
  const DotFraction: Re := Opt(Cat(Lit("."), Digits))           // (?:\.\d+)?
  const SlashOrDotFraction: Re := Opt(Cat(Class(OneOf("/.")), Digits))  // (?:[\/.]\d+)?
  const Comma: Re := Opt(Lit(","))                              // ,?
  const AlphaSeparator: Re := Opt(Class(OneOf(",|/")))          // [,|\/]? and [,|/]?

  /** (\d+(?:[\/.]\d+)?(%?))? with the value in group v and the sign in group v + 1. */
  function AlphaPart(v: nat): Re {
    Opt(Group(v, Cat(Digits, Cat(SlashOrDotFraction, Group(v + 1, Opt(Lit("%")))))))
  }

  /** (?:(\d+(?:\.\d+)?(%))|(\d+)): a percentage in groups n (with its sign)
      and n + 1 (the sign alone), or an integer in group n + 2. */
  function RgbChannel(n: nat): Re {
    Alt(Group(n, Cat(Digits, Cat(DotFraction, Group(n + 1, Lit("%"))))), Group(n + 2, Digits))
  }

  /** \s*sep\s* followed by next: the separator of two fields. */
  function Sep(sep: Re, next: Re): Re {
    Cat(Ws, Cat(sep, Cat(Ws, next)))
  }

  /** \s*\) */
  const ClosingParen: Re := Cat(Ws, Lit(")"))

  /** \s*[,|/]?\s*(alpha)?\s*\) with the alpha in groups v and v + 1. */
  function AlphaTail(v: nat): Re {
    Sep(AlphaSeparator, Cat(AlphaPart(v), ClosingParen))
  }

  /** name, an optional "a", "(" and white space, then body. */
  function Functional(name: string, body: Re): Re {
    Cat(Lit(name), FunctionalTail(body))
  }

  /** The part of a functional pattern after its name. */
  function FunctionalTail(body: Re): Re {
    Cat(Opt(Lit("a")), Cat(Lit("("), Cat(Ws, body)))
  }

  /** ([-|+]?\d+(?:[\/.]\d+)?): the hue, in group 1. */
  const HueGroup: Re := Group(1, Cat(Opt(Class(OneOf("-|+"))), Cat(Digits, SlashOrDotFraction)))

  /** deg|rad|grad|turn */
  const HueUnit: Re := Alt(Lit("deg"), Alt(Lit("rad"), Alt(Lit("grad"), Lit("turn"))))

  /** (\d+(?:\.\d+)?) as group n: saturation or lightness without its sign. */
  function PercentGroup(n: nat): Re {
    Group(n, Cat(Digits, DotFraction))
  }

  /** ^hsla?\(\s*([-|+]?\d+(?:[\/.]\d+)?)(deg|rad|grad|turn)?\s*,?\s*(\d+(?:\.\d+)?)%\s*,?\s*(\d+(?:\.\d+)?)%\s*[,|\/]?\s*(\d+(?:[\/.]\d+)?(%?))?\s*\)$ */
  const HslPattern: Re := Functional("hsl", HslBody)

  /** The HSL(A) pattern after its opening parenthesis and white space. */
  const HslBody: Re :=
    Cat(HueGroup, Cat(Opt(Group(2, HueUnit)),
    Sep(Comma, Cat(PercentGroup(3), Cat(Lit("%"),
    Sep(Comma, Cat(PercentGroup(4), Cat(Lit("%"),
    AlphaTail(5)))))))))

  /** ^rgba?\(\s*C\s*,?\s*C\s*,?\s*C\s*[,|/]?\s*(\d+(?:[\/.]\d+)?(%?))?\s*\)$
      where C is a percentage or an integer channel. */
  const RgbPattern: Re := Functional("rgb", RgbBody)

  /** The RGB(A) pattern after its opening parenthesis and white space. */
  const RgbBody: Re :=
    Cat(RgbChannel(1), Sep(Comma,
    Cat(RgbChannel(4), Sep(Comma,
    Cat(RgbChannel(7), AlphaTail(10))))))

  /** [0-9a-f]{2} */
  const HexPair: Re := Cat(Class(LowerHex), Class(LowerHex))

  /** ^([0-9a-f]{2})([0-9a-f]{2})([0-9a-f]{2})([0-9a-f]{2})$ */
  const HexPattern: Re :=
    Cat(Group(1, HexPair), Cat(Group(2, HexPair), Cat(Group(3, HexPair), Group(4, HexPair))))

  /** bits[n] of an exec result: the capture, or undefined. */
  function Capture(bits: Captures, n: nat): Option<string> {
    if n in bits then Some(bits[n]) else None
  }

  /** x * factor, with NaN staying NaN. */
  function Scale(x: Num, factor: real): Num {
    if x.NaN? then NaN else Num(x.val * factor)
  }

  /** The alpha of the functional schemes from the parsed value x and the
      sign capture: divided by 100 after a percent sign, and 1 when it is NaN
      (alpha absent). */
  function AlphaOf(x: Num, sign: Option<string>): Num {
    var y := if sign == Some("%") then Scale(x, 1.0 / 100.0) else x;
    if y.NaN? then Num(1.0) else y
  }

  /** The alpha read from groups v (value) and v + 1 (percent sign). */
  function Alpha(bits: Captures, v: nat): Num {
    AlphaOf(ParseFloat(Capture(bits, v)), Capture(bits, v + 1))
  }

  /** Math.PI, as the decimal JavaScript prints for it. */
  const Pi: real := 3.141592653589793

  /** The hue in degrees: rad times 180/pi, grad times 9/10, turn times 360,
      deg or no unit unchanged. */
  function HueDegrees(h: Num, unit: Option<string>): Num {
    match unit
    case Some("rad") => Scale(h, 180.0 / Pi)
    case Some("grad") => Scale(h, 9.0 / 10.0)
    case Some("turn") => Scale(h, 360.0)
    case _ => h
  }

  /** The result of to360Degrees, as a function: NaN gives 0. */
  function To360(h: Num): real {
    if h.NaN? then 0.0 else Wrap360(h.val)
  }

  /** hue2rgb: t moved by one into [0, 1] when it lies just outside, then the
      piecewise-linear channel profile between p and q. */
  function Hue2Rgb(p: real, q: real, t: real): real {
    var t1 := if t < 0.0 then t + 1.0 else t;
    var t2 := if t1 > 1.0 then t1 - 1.0 else t1;
    if t2 < 1.0 / 6.0 then p + (q - p) * 6.0 * t2
    else if t2 < 1.0 / 2.0 then q
    else if t2 < 2.0 / 3.0 then p + (q - p) * (2.0 / 3.0 - t2) * 6.0
    else p
  }

  /** HSL to RGB on values in [0, 1] (hue as a fraction of a turn). */
  function HslToRgb(h: real, s: real, l: real): (rgb: (real, real, real)) {
    if s == 0.0 then (l, l, l)
    else
      var q := if l < 1.0 / 2.0 then l * (1.0 + s) else l + s - l * s;
      var p := 2.0 * l - q;
      (Hue2Rgb(p, q, h + 1.0 / 3.0), Hue2Rgb(p, q, h), Hue2Rgb(p, q, h - 1.0 / 3.0))
  }

  /** The HSL(A) computation on parsed values: the hue h with its unit moved
      into [0, 360] and taken as a fraction of a turn, saturation and
      lightness (percentages) as fractions, channels scaled by 255. A NaN
      saturation or lightness makes every colour channel NaN. */
  function HslQuad(h: Num, unit: Option<string>, sat: Num, light: Num, a: Num): Quad {
    var hue := To360(HueDegrees(h, unit)) / 360.0;
    var s := Scale(sat, 1.0 / 100.0);
    var l := Scale(light, 1.0 / 100.0);
    if s.NaN? || l.NaN? then Quad(NaN, NaN, NaN, a)
    else
      var rgb := HslToRgb(hue, s.val, l.val);
      Quad(Num(rgb.0 * 255.0), Num(rgb.1 * 255.0), Num(rgb.2 * 255.0), a)
  }

  /** The process function of HSL(A): hue in group 1 with its unit in group
      2, saturation and lightness in groups 3 and 4, alpha in groups 5 and 6. */
  function ProcessHsl(bits: Captures): Quad {
    HslQuad(ParseFloat(Capture(bits, 1)), Capture(bits, 2), ParseFloat(Capture(bits, 3)),
            ParseFloat(Capture(bits, 4)), Alpha(bits, 5))
  }

  /** One RGB(A) channel from its parsed forms: the percentage times 255/100
      when the sign capture is a percent sign, otherwise the integer. */
  function ChannelOf(percent: Num, sign: Option<string>, integer: Num): Num {
    if sign == Some("%") then Scale(percent, 255.0 / 100.0) else integer
  }

  /** The RGB(A) channel of groups n (percentage), n + 1 (its sign) and
      n + 2 (integer). */
  function RgbValue(bits: Captures, n: nat): Num {
    ChannelOf(ParseFloat(Capture(bits, n)), Capture(bits, n + 1), ParseInt(Capture(bits, n + 2), 10))
  }

  /** The process function of RGB(A). */
  function ProcessRgb(bits: Captures): Quad {
    Quad(RgbValue(bits, 1), RgbValue(bits, 4), RgbValue(bits, 7), Alpha(bits, 10))
  }

  /** The process function of HEX: four bytes, the last divided by 255. */
  function ProcessHex(bits: Captures): Quad {
    Quad(HexChannel(bits, 1), HexChannel(bits, 2), HexChannel(bits, 3), Scale(HexChannel(bits, 4), 1.0 / 255.0))
  }

  /** Group n read by parseInt(_, 16). */
  function HexChannel(bits: Captures, n: nat): Num {
    ParseInt(Capture(bits, n), 16)
  }

  datatype Scheme = HslScheme | RgbScheme | HexScheme {
    function Pattern(): Re {
      match this
      case HslScheme => HslPattern
      case RgbScheme => RgbPattern
      case HexScheme => HexPattern
    }

    function Process(bits: Captures): Quad {
      match this
      case HslScheme => ProcessHsl(bits)
      case RgbScheme => ProcessRgb(bits)
      case HexScheme => ProcessHex(bits)
    }
  }

  /** The schemes in declaration order; the constructor tries them from the
      last to the first. */
  const AllSchemes: seq<Scheme> := [HslScheme, RgbScheme, HexScheme]

  /** The captures of the HEX pattern on eight hex digits: the four pairs. */
  function HexCaptures(s: string): Captures
    requires |s| == 8
  {
    map[1 := s[0..2], 2 := s[2..4], 3 := s[4..6], 4 := s[6..8]]
  }

  /** One capture group of two lower-case hex digits at i. */
  lemma HexGroupMatch(n: nat, s: string, i: nat, caps: Captures)
    requires i <= |s|
    ensures Match(Group(n, HexPair), s, i, caps)
         == if i + 2 <= |s| && IsLowerHex(s[i]) && IsLowerHex(s[i + 1])
            then [Thread(i + 2, caps[n := s[i..i + 2]])] else []
  {
    var k := Class(LowerHex);
    var m1 := Match(k, s, i, caps);
    if m1 != [] {
      assert m1 == [Thread(i + 1, caps)];
      assert Then(k, s, m1) == Match(k, s, i + 1, caps) + Then(k, s, []);
    }
    var m2 := Match(HexPair, s, i, caps);
    if i + 2 <= |s| && IsLowerHex(s[i]) && IsLowerHex(s[i + 1]) {
      assert m2 == [Thread(i + 2, caps)];
      assert Close(n, s, i, m2) == [Thread(i + 2, caps[n := s[i..i + 2]])] + Close(n, s, i, []);
    } else {
      assert m2 == [];
    }
  }

  /** A hex-pair group followed by more pattern, where the pair is there. */
  lemma HexGroupThen(n: nat, rest: Re, s: string, i: nat, caps: Captures)
    requires HexAt(s, i, 2)
    ensures Match(Cat(Group(n, HexPair), rest), s, i, caps) == Match(rest, s, i + 2, caps[n := s[i..i + 2]])
  {
    HexGroupMatch(n, s, i, caps);
    CatSingle(Group(n, HexPair), rest, s, i, caps, Thread(i + 2, caps[n := s[i..i + 2]]));
  }

  /** A hex-pair group followed by more pattern, where the pair is not there. */
  lemma HexGroupStops(n: nat, rest: Re, s: string, i: nat, caps: Captures)
    requires i <= |s| && !HexAt(s, i, 2)
    ensures Match(Cat(Group(n, HexPair), rest), s, i, caps) == []
  {
    HexGroupMatch(n, s, i, caps);
    CatFails(Group(n, HexPair), rest, s, i, caps);
  }

  /** The n characters from i on are there and are lower-case hex digits. */
  predicate HexAt(s: string, i: nat, n: nat) {
    i + n <= |s| && forall k :: i <= k < i + n ==> IsLowerHex(s[k])
  }

  lemma HexGroups2(n3: nat, n4: nat, s: string, i: nat, caps: Captures)
    requires HexAt(s, i, 4)
    ensures Match(Cat(Group(n3, HexPair), Group(n4, HexPair)), s, i, caps)
         == [Thread(i + 4, caps[n3 := s[i..i + 2]][n4 := s[i + 2..i + 4]])]
  {
    HexGroupThen(n3, Group(n4, HexPair), s, i, caps);
    HexGroupMatch(n4, s, i + 2, caps[n3 := s[i..i + 2]]);
  }

  lemma HexGroups3(n2: nat, n3: nat, n4: nat, s: string, i: nat, caps: Captures)
    requires HexAt(s, i, 6)
    ensures Match(Cat(Group(n2, HexPair), Cat(Group(n3, HexPair), Group(n4, HexPair))), s, i, caps)
         == [Thread(i + 6, caps[n2 := s[i..i + 2]][n3 := s[i + 2..i + 4]][n4 := s[i + 4..i + 6]])]
  {
    HexGroupThen(n2, Cat(Group(n3, HexPair), Group(n4, HexPair)), s, i, caps);
    HexGroups2(n3, n4, s, i + 2, caps[n2 := s[i..i + 2]]);
  }

  /** Four hex-pair groups in a row capture four pairs. */
  lemma HexGroups4(n1: nat, n2: nat, n3: nat, n4: nat, s: string, i: nat, caps: Captures)
    requires HexAt(s, i, 8)
    ensures Match(Cat(Group(n1, HexPair), Cat(Group(n2, HexPair), Cat(Group(n3, HexPair), Group(n4, HexPair)))), s, i, caps)
         == [Thread(i + 8, caps[n1 := s[i..i + 2]][n2 := s[i + 2..i + 4]][n3 := s[i + 4..i + 6]][n4 := s[i + 6..i + 8]])]
  {
    assert HexAt(s, i, 2) && HexAt(s, i + 2, 6);
    HexGroupThen(n1, Cat(Group(n2, HexPair), Cat(Group(n3, HexPair), Group(n4, HexPair))), s, i, caps);
    HexGroups3(n2, n3, n4, s, i + 2, caps[n1 := s[i..i + 2]]);
  }

  /** The captures of the four hex groups as one map. */
  lemma FourCaptures(a: string, b: string, c: string, d: string)
    ensures map[][1 := a][2 := b][3 := c][4 := d] == map[1 := a, 2 := b, 3 := c, 4 := d]
  {
  }

  /** The match of the HEX pattern on a string that starts with eight
      lower-case hex digits. */
  lemma HexMatchPrefix(s: string)
    requires HexAt(s, 0, 8)
    ensures Match(HexPattern, s, 0, map[])
         == [Thread(8, map[1 := s[0..2], 2 := s[2..4], 3 := s[4..6], 4 := s[6..8]])]
  {
    HexGroups4(1, 2, 3, 4, s, 0, map[]);
    FourCaptures(s[0..2], s[2..4], s[4..6], s[6..8]);
  }

  /** Two hex-pair groups fail where the first two characters are not both
      lower-case hex digits. */
  lemma HexGroups2Fail(n3: nat, n4: nat, s: string, i: nat, caps: Captures)
    requires i <= |s| && !HexAt(s, i, 4)
    ensures Match(Cat(Group(n3, HexPair), Group(n4, HexPair)), s, i, caps) == []
  {
    if HexAt(s, i, 2) {
      HexGroupThen(n3, Group(n4, HexPair), s, i, caps);
      HexGroupMatch(n4, s, i + 2, caps[n3 := s[i..i + 2]]);
    } else {
      HexGroupStops(n3, Group(n4, HexPair), s, i, caps);
    }
  }

  lemma HexGroups3Fail(n2: nat, n3: nat, n4: nat, s: string, i: nat, caps: Captures)
    requires i <= |s| && !HexAt(s, i, 6)
    ensures Match(Cat(Group(n2, HexPair), Cat(Group(n3, HexPair), Group(n4, HexPair))), s, i, caps) == []
  {
    if HexAt(s, i, 2) {
      HexGroupThen(n2, Cat(Group(n3, HexPair), Group(n4, HexPair)), s, i, caps);
      HexGroups2Fail(n3, n4, s, i + 2, caps[n2 := s[i..i + 2]]);
    } else {
      HexGroupStops(n2, Cat(Group(n3, HexPair), Group(n4, HexPair)), s, i, caps);
    }
  }

  /** The HEX pattern has no match on a string that does not start with eight
      lower-case hex digits. */
  lemma HexMatchFails(s: string)
    requires !HexAt(s, 0, 8)
    ensures Match(HexPattern, s, 0, map[]) == []
  {
    var c0: Captures := map[];
    var rest := Cat(Group(2, HexPair), Cat(Group(3, HexPair), Group(4, HexPair)));
    if HexAt(s, 0, 2) {
      HexGroupThen(1, rest, s, 0, c0);
      HexGroups3Fail(2, 3, 4, s, 2, c0[1 := s[0..2]]);
    } else {
      HexGroupStops(1, rest, s, 0, c0);
    }
  }

  /** The HEX pattern matches exactly the strings of eight lower-case hex
      digits, capturing the four pairs. */
  lemma HexExec(s: string)
    ensures Exec(HexPattern, s) == if |s| == 8 && AllLowerHex(s) then Some(HexCaptures(s)) else None
  {
    if HexAt(s, 0, 8) {
      HexMatchPrefix(s);
    } else {
      HexMatchFails(s);
    }
  }

  /** The RGB(A) pattern matches only text that starts with "rgb". */
  lemma RgbPrefix(s: string)
    requires Exec(RgbPattern, s).Some?
    ensures |s| >= 3 && s[..3] == "rgb" && s[0] == 'r'
  {
    LitPrefixNeeded("rgb", FunctionalTail(RgbBody), s);
    assert s[0] == s[..3][0];
  }

  /** The HSL(A) pattern matches only text that starts with "hsl". */
  lemma HslPrefix(s: string)
    requires Exec(HslPattern, s).Some?
    ensures |s| >= 3 && s[..3] == "hsl" && s[0] == 'h'
  {
    LitPrefixNeeded("hsl", FunctionalTail(HslBody), s);
    assert s[0] == s[..3][0];
  }

  /** No text matches two of the three patterns: HEX text starts with a hex
      digit, RGB(A) text with 'r' and HSL(A) text with 'h'. The order in which
      the constructor tries them therefore cannot change which one applies. */
  lemma SchemesExclusive(s: string)
    ensures !(Exec(HexPattern, s).Some? && Exec(RgbPattern, s).Some?)
    ensures !(Exec(HexPattern, s).Some? && Exec(HslPattern, s).Some?)
    ensures !(Exec(RgbPattern, s).Some? && Exec(HslPattern, s).Some?)
  {
    HexExec(s);
    if Exec(RgbPattern, s).Some? {
      RgbPrefix(s);
      assert s[0] == 'r';
    }
    if Exec(HslPattern, s).Some? {
      HslPrefix(s);
      assert s[0] == 'h';
    }
  }

  /** The byte spelled by two hex digits. */
  function Byte(hi: char, lo: char): nat {
    16 * HexValue(hi) + HexValue(lo)
  }

  /** One pair of HEX text read by parseInt(_, 16). */
  lemma PairByte(s: string, n: nat)
    requires |s| == 8 && AllLowerHex(s) && 1 <= n <= 4
    ensures HexChannel(HexCaptures(s), n) == Num(Byte(s[2 * n - 2], s[2 * n - 1]) as real)
    ensures Byte(s[2 * n - 2], s[2 * n - 1]) < 256
  {
    var p := s[2 * n - 2..2 * n];
    assert Capture(HexCaptures(s), n) == Some(p);
    assert p[0] == s[2 * n - 2] && p[1] == s[2 * n - 1];
    ParseHexPair(p);
  }

  /** The four channels of HEX text, one lemma each. */
  lemma HexRed(s: string)
    requires |s| == 8 && AllLowerHex(s)
    ensures ProcessHex(HexCaptures(s)).r == Num(Byte(s[0], s[1]) as real)
  {
    PairByte(s, 1);
  }

  lemma HexGreen(s: string)
    requires |s| == 8 && AllLowerHex(s)
    ensures ProcessHex(HexCaptures(s)).g == Num(Byte(s[2], s[3]) as real)
  {
    PairByte(s, 2);
  }

  lemma HexBlue(s: string)
    requires |s| == 8 && AllLowerHex(s)
    ensures ProcessHex(HexCaptures(s)).b == Num(Byte(s[4], s[5]) as real)
  {
    PairByte(s, 3);
  }

  lemma HexAlpha(s: string)
    requires |s| == 8 && AllLowerHex(s)
    ensures ProcessHex(HexCaptures(s)).a == Num(Byte(s[6], s[7]) as real / 255.0)
  {
    PairByte(s, 4);
  }

  /** HEX text is read as four bytes, the last one scaled to [0, 1]; every
      value lies in the range the constructor checks. */
  lemma HexValues(s: string)
    requires |s| == 8 && AllLowerHex(s)
    ensures ProcessHex(HexCaptures(s))
         == Quad(Num(Byte(s[0], s[1]) as real), Num(Byte(s[2], s[3]) as real),
                 Num(Byte(s[4], s[5]) as real), Num(Byte(s[6], s[7]) as real / 255.0))
    ensures Byte(s[0], s[1]) < 256 && Byte(s[2], s[3]) < 256 && Byte(s[4], s[5]) < 256 && Byte(s[6], s[7]) < 256
  {
    HexRed(s);
    HexGreen(s);
    HexBlue(s);
    HexAlpha(s);
    HexBytes(s);
  }

  /** The four pairs of HEX text are bytes. */
  lemma HexBytes(s: string)
    requires |s| == 8 && AllLowerHex(s)
    ensures Byte(s[0], s[1]) < 256 && Byte(s[2], s[3]) < 256 && Byte(s[4], s[5]) < 256 && Byte(s[6], s[7]) < 256
  {
    assert HexValue(s[0]) < 16 && HexValue(s[1]) < 16 && HexValue(s[2]) < 16 && HexValue(s[3]) < 16;
    assert HexValue(s[4]) < 16 && HexValue(s[5]) < 16 && HexValue(s[6]) < 16 && HexValue(s[7]) < 16;
  }

  /** An alpha that is absent (or not a number) is 1. */
  lemma AlphaAbsent(sign: Option<string>)
    ensures AlphaOf(NaN, sign) == Num(1.0)
  {
  }

  /** An alpha with a percent sign is divided by 100; one without is taken
      as it is. */
  lemma AlphaValue(x: real, sign: Option<string>)
    ensures sign == Some("%") ==> AlphaOf(Num(x), sign) == Num(x / 100.0)
    ensures sign != Some("%") ==> AlphaOf(Num(x), sign) == Num(x)
  {
  }

  /** An integer RGB(A) channel is the number its digits spell, and it passes
      the range check exactly when it is at most 255. */
  lemma RgbIntegerChannel(percent: Num, sign: Option<string>, ds: string)
    requires sign != Some("%")
    requires ds != [] && AllDigits(ds)
    ensures ChannelOf(percent, sign, ParseInt(Some(ds), 10)) == Num(DigitsValue(ds, 10) as real)
    ensures InRange(ChannelOf(percent, sign, ParseInt(Some(ds), 10)), 255.0) <==> DigitsValue(ds, 10) <= 255
  {
    ParseDigits(ds);
  }

  /** A percentage RGB(A) channel, whole or with a fraction, is scaled by
      255/100, and it passes the range check exactly when it is at most 100%. */
  lemma RgbPercentChannel(ds: string, fs: string, integer: Num)
    requires ds != [] && AllDigits(ds) && AllDigits(fs)
    ensures ChannelOf(ParseFloat(Some(DecimalToken(ds, fs) + "%")), Some("%"), integer) == Num(DecimalValue(ds, fs) * 255.0 / 100.0)
    ensures InRange(ChannelOf(ParseFloat(Some(DecimalToken(ds, fs) + "%")), Some("%"), integer), 255.0) <==> DecimalValue(ds, fs) <= 100.0
  {
    ParseDecimalThen(ds, fs, "%");
    DecimalValueNonNegative(ds, fs);
    PercentScale(DecimalValue(ds, fs));
  }

  /** v percent of 255 lies in [0, 255] exactly when v is at most 100. */
  lemma PercentScale(v: real)
    requires 0.0 <= v
    ensures 0.0 <= v * 255.0 / 100.0 <= 255.0 <==> v <= 100.0
  {
  }

  /** The hue, however written, ends up in [0, 360] degrees. */
  lemma HueBound(h: Num)
    ensures 0.0 <= To360(h) <= 360.0
  {
  }

  /** 0 <= x * y <= y for x in [0, 1] and y >= 0. */
  lemma ScaleDown(x: real, y: real)
    requires 0.0 <= x <= 1.0 && 0.0 <= y
    ensures 0.0 <= x * y <= y
  {
    assert (1.0 - x) * y >= 0.0;
  }

  /** A point on the segment from p to q lies between them. */
  lemma Interpolate(p: real, q: real, f: real)
    requires 0.0 <= f <= 1.0
    ensures Min(p, q) <= p + (q - p) * f <= Max(p, q)
  {
    var d := q - p;
    var m := d * f;
    if p <= q {
      ScaleDown(f, d);
      assert m == f * d;
      assert 0.0 <= m <= d;
    } else {
      var e := p - q;
      ScaleDown(f, e);
      assert m == -(f * e);
      assert -e <= m <= 0.0;
    }
  }

  /** hue2rgb stays between p and q for any t within one turn of [0, 1]. */
  lemma Hue2RgbBetween(p: real, q: real, t: real)
    requires -1.0 <= t <= 2.0
    ensures Min(p, q) <= Hue2Rgb(p, q, t) <= Max(p, q)
  {
    var t1 := if t < 0.0 then t + 1.0 else t;
    var t2 := if t1 > 1.0 then t1 - 1.0 else t1;
    if t2 < 1.0 / 6.0 {
      assert 0.0 <= 6.0 * t2 <= 1.0;
      Interpolate(p, q, 6.0 * t2);
      assert p + (q - p) * 6.0 * t2 == p + (q - p) * (6.0 * t2);
    } else if t2 < 1.0 / 2.0 {
    } else if t2 < 2.0 / 3.0 {
      var f := (2.0 / 3.0 - t2) * 6.0;
      assert 0.0 <= f <= 1.0;
      Interpolate(p, q, f);
      assert p + (q - p) * (2.0 / 3.0 - t2) * 6.0 == p + (q - p) * f;
    }
  }

  /** Saturation and lightness in [0, 1] give channels in [0, 1], whatever
      the hue in [0, 1]. */
  lemma HslToRgbInGamut(h: real, s: real, l: real)
    requires 0.0 <= h <= 1.0 && 0.0 <= s <= 1.0 && 0.0 <= l <= 1.0
    ensures var rgb := HslToRgb(h, s, l);
      0.0 <= rgb.0 <= 1.0 && 0.0 <= rgb.1 <= 1.0 && 0.0 <= rgb.2 <= 1.0
  {
    if s != 0.0 {
      var q := if l < 1.0 / 2.0 then l * (1.0 + s) else l + s - l * s;
      var p := 2.0 * l - q;
      if l < 1.0 / 2.0 {
        ScaleDown(s, l);
        assert l * (1.0 + s) == l + s * l;
      } else {
        var y := 1.0 - l;
        ScaleDown(s, y);
        var m := s * y;
        assert l + s - l * s == l + m;
        assert q == l + m && p == l - m;
      }
      assert 0.0 <= p <= 1.0 && 0.0 <= q <= 1.0;
      Hue2RgbBetween(p, q, h + 1.0 / 3.0);
      Hue2RgbBetween(p, q, h);
      Hue2RgbBetween(p, q, h - 1.0 / 3.0);
    }
  }

  /** Saturation and lightness of at most 100% yield colour channels in
      [0, 255], whatever the hue, so those pass the range checks. */
  lemma HslInGamut(h: Num, unit: Option<string>, s: real, l: real, a: Num)
    requires 0.0 <= s <= 100.0 && 0.0 <= l <= 100.0
    ensures var q := HslQuad(h, unit, Num(s), Num(l), a);
      InRange(q.r, 255.0) && InRange(q.g, 255.0) && InRange(q.b, 255.0)
  {
    var hue := To360(HueDegrees(h, unit)) / 360.0;
    HueBound(HueDegrees(h, unit));
    HslToRgbInGamut(hue, s * (1.0 / 100.0), l * (1.0 / 100.0));
  }

  /** Zero saturation gives a grey: every channel is 2.55 times the
      lightness percentage (`KnownColors.Grey` applies it to a text). */
  lemma HslAchromatic(h: Num, unit: Option<string>, l: real, a: Num)
    ensures HslQuad(h, unit, Num(0.0), Num(l), a) == Quad(Num(l * 2.55), Num(l * 2.55), Num(l * 2.55), a)
  {
  }

  /** A NaN saturation or lightness makes every colour channel NaN, so the
      red check fails. */
  lemma HslNaN(h: Num, unit: Option<string>, sat: Num, light: Num, a: Num)
    requires sat.NaN? || light.NaN?
    ensures HslQuad(h, unit, sat, light, a) == Quad(NaN, NaN, NaN, a)
  {
  }
}
