/** Whole RGB(A) and HSL(A) colour strings through the constructor's
    pipeline: the text is left alone by normalization, is no keyword, is
    matched by its scheme's pattern, and its captures are processed and
    range-checked. Also the text of toRGB read back by the constructor. */
module ParseTexts {
  import opened Results
  import opened Text
  import opened Numbers
  import opened Regex
  import opened Schemes
  import opened SchemeTexts
  import opened Parser
  import opened Format

  /** No ASCII capital letter. */
  predicate NoUpper(s: string) {
    forall i :: 0 <= i < |s| ==> !('A' <= s[i] <= 'Z')
  }

  lemma NoUpperConcat(a: string, b: string)
    requires NoUpper(a) && NoUpper(b)
    ensures NoUpper(a + b)
  {
    forall i | 0 <= i < |a + b|
      ensures !('A' <= (a + b)[i] <= 'Z')
    {
      if i < |a| {
        assert (a + b)[i] == a[i];
      } else {
        assert (a + b)[i] == b[i - |a|];
      }
    }
  }

  lemma FractionNoUpper(f: string)
    requires Fraction(f)
    ensures NoUpper(f)
  {
    if f != [] {
      forall i | 1 <= i < |f|
        ensures IsDigit(f[i])
      {
        assert f[i] == f[1..][i - 1];
      }
    }
  }

  /** Text on which trimming and lower-casing have no effect and that the
      HEX step passes unchanged. */
  predicate Settled(s: string) {
    |s| > 0 && s[0] != '#' && !IsSpace(s[0]) && !IsSpace(s[|s| - 1]) && NoUpper(s)
  }

  /** Settled text that is not a keyword goes straight to the scheme loop. */
  lemma ParseSettled(k: Keywords, context: Option<string>, s: string)
    requires Settled(s) && s !in k
    ensures Parse(k, context, s) == Interpret(s)
  {
    TrimUnchanged(s);
    LowerUnchanged(s);
  }

  /** Text the RGB(A) pattern matches is decided by that scheme: neither of
      the other patterns matches it. */
  lemma InterpretRgb(s: string)
    requires Exec(RgbPattern, s).Some?
    ensures Interpret(s) == Validate(ProcessRgb(Exec(RgbPattern, s).value))
  {
    SchemesExclusive(s);
    assert AllSchemes[2] == HexScheme && AllSchemes[1] == RgbScheme;
  }

  /** Text the HSL(A) pattern matches is decided by that scheme. */
  lemma InterpretHsl(s: string)
    requires Exec(HslPattern, s).Some?
    ensures Interpret(s) == Validate(ProcessHsl(Exec(HslPattern, s).value))
  {
    SchemesExclusive(s);
    assert AllSchemes[2] == HexScheme && AllSchemes[1] == RgbScheme && AllSchemes[0] == HslScheme;
  }

  /** Settled text that the HEX pattern cannot match (not eight hex
      digits) and that starts with neither "rgb" nor "hsl" matches no scheme. */
  lemma ParseNoScheme(k: Keywords, context: Option<string>, s: string)
    requires Settled(s) && s !in k
    requires !(|s| == 8 && AllLowerHex(s)) && s[0] != 'r' && s[0] != 'h'
    ensures Parse(k, context, s) == Failure(Unparsable)
  {
    ParseSettled(k, context, s);
    HexExec(s);
    if Exec(RgbPattern, s).Some? {
      RgbPrefix(s);
    }
    if Exec(HslPattern, s).Some? {
      HslPrefix(s);
    }
    NoSchemeMatches(s);
  }

  /** Scan reports Unparsable when none of the three patterns matches. */
  lemma NoSchemeMatches(s: string)
    requires Exec(HexPattern, s).None? && Exec(RgbPattern, s).None? && Exec(HslPattern, s).None?
    ensures Interpret(s) == Failure(Unparsable)
  {
    assert AllSchemes[0].Pattern() == HslPattern && AllSchemes[1].Pattern() == RgbPattern && AllSchemes[2].Pattern() == HexPattern;
  }

  /** The number parseFloat reads from digits d and the fraction f the hue
      and alpha patterns allow: a fraction after '.' counts, while '/' ends
      the number, so "1/2" reads as 1. */
  function FractionValue(d: string, f: string): real {
    if f != [] && f[0] == '.' then DecimalValue(d, f[1..]) else DigitsValue(d, 10) as real
  }

  lemma ParseFraction(d: string, f: string, rest: string)
    requires Numeral(d) && Fraction(f)
    requires rest == [] || (!IsDigit(rest[0]) && rest[0] != '.')
    ensures ParseFloat(Some(d + f + rest)) == Num(FractionValue(d, f))
  {
    if f == [] {
      assert d + f + rest == d + rest;
      if rest == [] {
        assert d + rest == d;
        ParseDigits(d);
      } else {
        ParseDigitsThen(d, rest);
      }
    } else if f[0] == '.' {
      assert f == "." + f[1..];
      assert d + f + rest == d + "." + f[1..] + rest;
      ParsePointThen(d, f[1..], rest);
    } else {
      assert d + f + rest == d + (f + rest);
      ParseDigitsThen(d, f + rest);
    }
  }

  /** An integer channel in group n + 2, with groups n and n + 1 unset. */
  lemma IntegerValue(bits: Captures, n: nat, d: string)
    requires Numeral(d)
    requires Capture(bits, n) == None && Capture(bits, n + 1) == None && Capture(bits, n + 2) == Some(d)
    ensures RgbValue(bits, n) == Num(DigitsValue(d, 10) as real)
  {
    RgbIntegerChannel(NaN, None, d);
  }

  /** A whole-number percentage channel p% in group n, its sign in n + 1. */
  lemma PercentValue(bits: Captures, n: nat, p: string)
    requires Numeral(p)
    requires Capture(bits, n) == Some(p + "%") && Capture(bits, n + 1) == Some("%")
    ensures RgbValue(bits, n) == Num(DigitsValue(p, 10) as real * 255.0 / 100.0)
  {
    RgbPercentChannel(p, "", ParseInt(Capture(bits, n + 2), 10));
    assert DecimalToken(p, "") == p;
    assert DecimalValue(p, "") == DigitsValue(p, 10) as real;
  }

  lemma IntegerCaptures(d1: string, d2: string, d3: string)
    ensures var bits := map[3 := d1, 6 := d2, 9 := d3];
      Capture(bits, 1) == None && Capture(bits, 2) == None && Capture(bits, 3) == Some(d1) &&
      Capture(bits, 4) == None && Capture(bits, 5) == None && Capture(bits, 6) == Some(d2) &&
      Capture(bits, 7) == None && Capture(bits, 8) == None && Capture(bits, 9) == Some(d3) &&
      Capture(bits, 10) == None && Capture(bits, 11) == None
  {
  }

  lemma PercentCapturesAt(p1: string, p2: string, p3: string)
    ensures var bits := PercentCaptures(p1 + "%", p2 + "%", p3 + "%");
      Capture(bits, 1) == Some(p1 + "%") && Capture(bits, 2) == Some("%") &&
      Capture(bits, 4) == Some(p2 + "%") && Capture(bits, 5) == Some("%") &&
      Capture(bits, 7) == Some(p3 + "%") && Capture(bits, 8) == Some("%") &&
      Capture(bits, 10) == None && Capture(bits, 11) == None
  {
  }

  lemma AlphaCapturesAt(d1: string, d2: string, d3: string, x: string, pct: string)
    ensures var bits := AlphaCaptures(d1, d2, d3, x, pct);
      Capture(bits, 1) == None && Capture(bits, 2) == None && Capture(bits, 3) == Some(d1) &&
      Capture(bits, 4) == None && Capture(bits, 5) == None && Capture(bits, 6) == Some(d2) &&
      Capture(bits, 7) == None && Capture(bits, 8) == None && Capture(bits, 9) == Some(d3) &&
      Capture(bits, 10) == Some(x) && Capture(bits, 11) == Some(pct)
  {
  }

  /** RGB: three integer channels, read as decimal, and alpha 1. */
  lemma ProcessIntegers(d1: string, d2: string, d3: string)
    requires Numeral(d1) && Numeral(d2) && Numeral(d3)
    ensures ProcessRgb(map[3 := d1, 6 := d2, 9 := d3]) ==
      Quad(Num(DigitsValue(d1, 10) as real), Num(DigitsValue(d2, 10) as real), Num(DigitsValue(d3, 10) as real), Num(1.0))
  {
    var bits := map[3 := d1, 6 := d2, 9 := d3];
    IntegerCaptures(d1, d2, d3);
    IntegerValue(bits, 1, d1);
    IntegerValue(bits, 4, d2);
    IntegerValue(bits, 7, d3);
    AlphaAbsent(None);
  }

  /** RGB: three whole-number percentages, scaled by 255 / 100, and alpha 1. */
  lemma ProcessPercents(p1: string, p2: string, p3: string)
    requires Numeral(p1) && Numeral(p2) && Numeral(p3)
    ensures ProcessRgb(PercentCaptures(p1 + "%", p2 + "%", p3 + "%")) ==
      Quad(Num(DigitsValue(p1, 10) as real * 255.0 / 100.0), Num(DigitsValue(p2, 10) as real * 255.0 / 100.0),
           Num(DigitsValue(p3, 10) as real * 255.0 / 100.0), Num(1.0))
  {
    var bits := PercentCaptures(p1 + "%", p2 + "%", p3 + "%");
    PercentCapturesAt(p1, p2, p3);
    PercentValue(bits, 1, p1);
    PercentValue(bits, 4, p2);
    PercentValue(bits, 7, p3);
    AlphaAbsent(Capture(bits, 11));
  }

  /** The alpha value of the text ad af pct: divided by 100 after '%'. */
  function AlphaText(ad: string, af: string, pct: string): real {
    if pct == "%" then FractionValue(ad, af) / 100.0 else FractionValue(ad, af)
  }

  /** The alpha ad af pct in group v, its sign pct in group v + 1. */
  lemma AlphaTextValue(bits: Captures, v: nat, ad: string, af: string, pct: string)
    requires Numeral(ad) && Fraction(af) && (pct == "" || pct == "%")
    requires Capture(bits, v) == Some(ad + af + pct) && Capture(bits, v + 1) == Some(pct)
    ensures Alpha(bits, v) == Num(AlphaText(ad, af, pct))
  {
    ParseFraction(ad, af, pct);
    Schemes.AlphaValue(FractionValue(ad, af), Some(pct));
  }

  /** RGBA: three integer channels and the alpha ad af pct. */
  lemma ProcessAlpha(d1: string, d2: string, d3: string, ad: string, af: string, pct: string)
    requires Numeral(d1) && Numeral(d2) && Numeral(d3)
    requires Numeral(ad) && Fraction(af) && (pct == "" || pct == "%")
    ensures ProcessRgb(AlphaCaptures(d1, d2, d3, ad + af + pct, pct)) ==
      Quad(Num(DigitsValue(d1, 10) as real), Num(DigitsValue(d2, 10) as real), Num(DigitsValue(d3, 10) as real),
           Num(AlphaText(ad, af, pct)))
  {
    var bits := AlphaCaptures(d1, d2, d3, ad + af + pct, pct);
    AlphaCapturesAt(d1, d2, d3, ad + af + pct, pct);
    IntegerValue(bits, 1, d1);
    IntegerValue(bits, 4, d2);
    IntegerValue(bits, 7, d3);
    AlphaTextValue(bits, 10, ad, af, pct);
  }

  /** The unit capture of HSL text: none when the unit is left out. */
  function UnitOf(u: string): Option<string> {
    if u == "" then None else Some(u)
  }

  /** HSL: the hue hd hf with its unit, whole-number saturation and
      lightness, and alpha 1. */
  lemma ProcessHslText(hd: string, hf: string, u: string, sd: string, ld: string)
    requires Numeral(hd) && Fraction(hf) && HueUnitText(u) && Numeral(sd) && Numeral(ld)
    ensures ProcessHsl(HslCaptures(hd + hf, u, sd, ld)) ==
      HslQuad(Num(FractionValue(hd, hf)), UnitOf(u), Num(DigitsValue(sd, 10) as real), Num(DigitsValue(ld, 10) as real), Num(1.0))
  {
    var bits := HslCaptures(hd + hf, u, sd, ld);
    assert Capture(bits, 1) == Some(hd + hf) && Capture(bits, 2) == UnitOf(u);
    assert Capture(bits, 3) == Some(sd) && Capture(bits, 4) == Some(ld) && Capture(bits, 5) == None;
    ParseFraction(hd, hf, "");
    assert hd + hf + "" == hd + hf;
    ParseDigits(sd);
    ParseDigits(ld);
    AlphaAbsent(Capture(bits, 6));
  }

  lemma RgbTextSettled(d1: string, d2: string, d3: string, sep: string)
    requires Numeral(d1) && Numeral(d2) && Numeral(d3) && CommaSep(sep)
    ensures Settled(RgbText(d1, d2, d3, sep))
  {
    RgbTextOpen(d1, d2, d3, sep);
    var s := RgbText(d1, d2, d3, sep);
    assert s[0] == s[..3][0];
    var x1 := "rgb(" + d1;
    NoUpperConcat("rgb(", d1);
    var x2 := x1 + sep;
    NoUpperConcat(x1, sep);
    var x3 := x2 + d2;
    NoUpperConcat(x2, d2);
    var x4 := x3 + sep;
    NoUpperConcat(x3, sep);
    var x5 := x4 + d3;
    NoUpperConcat(x4, d3);
    NoUpperConcat(x5, ")");
  }

  /** rgb(d1, d2, d3): the channels are the decimal values of the digits,
      alpha is 1, and the range checks decide; so the text parses iff no
      channel exceeds 255. */
  lemma ParseRgbText(k: Keywords, context: Option<string>, s: string, d1: string, d2: string, d3: string, sep: string)
    requires Numeral(d1) && Numeral(d2) && Numeral(d3) && CommaSep(sep)
    requires s == RgbText(d1, d2, d3, sep) && s !in k
    ensures Parse(k, context, s) ==
      Validate(Quad(Num(DigitsValue(d1, 10) as real), Num(DigitsValue(d2, 10) as real), Num(DigitsValue(d3, 10) as real), Num(1.0)))
    ensures Parse(k, context, s).Success? <==>
      DigitsValue(d1, 10) <= 255 && DigitsValue(d2, 10) <= 255 && DigitsValue(d3, 10) <= 255
  {
    RgbTextSettled(d1, d2, d3, sep);
    ParseSettled(k, context, s);
    RgbIntegersExec(d1, d2, d3, sep);
    InterpretRgb(s);
    ProcessIntegers(d1, d2, d3);
  }

  lemma RgbPercentTextSettled(p1: string, p2: string, p3: string)
    requires Numeral(p1) && Numeral(p2) && Numeral(p3)
    ensures Settled(RgbPercentText(p1, p2, p3))
  {
    var x1 := "rgb(" + p1;
    NoUpperConcat("rgb(", p1);
    var x2 := x1 + "%,";
    NoUpperConcat(x1, "%,");
    var x3 := x2 + p2;
    NoUpperConcat(x2, p2);
    var x4 := x3 + "%,";
    NoUpperConcat(x3, "%,");
    var x5 := x4 + p3;
    NoUpperConcat(x4, p3);
    NoUpperConcat(x5, "%)");
    var s := x5 + "%)";
    assert s[0] == x1[0] && s[|s| - 1] == ')';
  }

  /** rgb(p1%,p2%,p3%): each channel is its percentage of 255, alpha is 1;
      so the text parses iff no percentage exceeds 100. */
  lemma ParseRgbPercentText(k: Keywords, context: Option<string>, s: string, p1: string, p2: string, p3: string)
    requires Numeral(p1) && Numeral(p2) && Numeral(p3)
    requires s == RgbPercentText(p1, p2, p3) && s !in k
    ensures Parse(k, context, s) ==
      Validate(Quad(Num(DigitsValue(p1, 10) as real * 255.0 / 100.0), Num(DigitsValue(p2, 10) as real * 255.0 / 100.0),
                    Num(DigitsValue(p3, 10) as real * 255.0 / 100.0), Num(1.0)))
  {
    RgbPercentTextSettled(p1, p2, p3);
    ParseSettled(k, context, s);
    RgbPercentsExec(p1, p2, p3);
    InterpretRgb(s);
    ProcessPercents(p1, p2, p3);
  }

  lemma AlphaSepNoUpper(asep: string)
    requires AlphaSepText(asep)
    ensures NoUpper(asep)
  {
  }

  lemma AlphaTailNoUpper(asep: string, ad: string, af: string, pct: string)
    requires AlphaSepText(asep) && Numeral(ad) && Fraction(af) && (pct == "" || pct == "%")
    ensures NoUpper(asep + ad + af + pct + ")")
  {
    AlphaSepNoUpper(asep);
    FractionNoUpper(af);
    var y1 := asep + ad;
    NoUpperConcat(asep, ad);
    var y2 := y1 + af;
    NoUpperConcat(y1, af);
    var y3 := y2 + pct;
    NoUpperConcat(y2, pct);
    NoUpperConcat(y3, ")");
  }

  lemma RgbaTextSettled(d1: string, d2: string, d3: string, sep: string, asep: string, ad: string, af: string, pct: string)
    requires Numeral(d1) && Numeral(d2) && Numeral(d3) && CommaSep(sep)
    requires AlphaSepText(asep) && Numeral(ad) && Fraction(af) && (pct == "" || pct == "%")
    ensures Settled(RgbaText(d1, d2, d3, sep, asep, ad, af, pct))
  {
    var x1 := "rgba(" + d1;
    NoUpperConcat("rgba(", d1);
    var x2 := x1 + sep;
    NoUpperConcat(x1, sep);
    var x3 := x2 + d2;
    NoUpperConcat(x2, d2);
    var x4 := x3 + sep;
    NoUpperConcat(x3, sep);
    var x5 := x4 + d3;
    NoUpperConcat(x4, d3);
    var t := asep + ad + af + pct + ")";
    AlphaTailNoUpper(asep, ad, af, pct);
    NoUpperConcat(x5, t);
    var s := x5 + t;
    assert s[0] == x1[0] && s[|s| - 1] == t[|t| - 1];
  }

  /** rgba(d1, d2, d3, alpha) with any of the separators , | / before the
      alpha: integer channels, and the alpha as parseFloat reads it, divided
      by 100 after '%'; the range checks decide. */
  lemma ParseRgbaText(k: Keywords, context: Option<string>, s: string, d1: string, d2: string, d3: string, sep: string,
                      asep: string, ad: string, af: string, pct: string)
    requires Numeral(d1) && Numeral(d2) && Numeral(d3) && CommaSep(sep)
    requires AlphaSepText(asep) && Numeral(ad) && Fraction(af) && (pct == "" || pct == "%")
    requires s == RgbaText(d1, d2, d3, sep, asep, ad, af, pct) && s !in k
    ensures Parse(k, context, s) ==
      Validate(Quad(Num(DigitsValue(d1, 10) as real), Num(DigitsValue(d2, 10) as real), Num(DigitsValue(d3, 10) as real),
                    Num(AlphaText(ad, af, pct))))
  {
    RgbaTextSettled(d1, d2, d3, sep, asep, ad, af, pct);
    ParseSettled(k, context, s);
    RgbaExec(d1, d2, d3, sep, asep, ad, af, pct);
    InterpretRgb(s);
    ProcessAlpha(d1, d2, d3, ad, af, pct);
  }

  lemma HueUnitNoUpper(u: string)
    requires HueUnitText(u)
    ensures NoUpper(u)
  {
  }

  lemma HslTextSettled(hd: string, hf: string, u: string, sd: string, ld: string)
    requires Numeral(hd) && Fraction(hf) && HueUnitText(u) && Numeral(sd) && Numeral(ld)
    ensures Settled(HslText(hd, hf, u, sd, ld))
  {
    FractionNoUpper(hf);
    HueUnitNoUpper(u);
    var x1 := "hsl(" + hd;
    NoUpperConcat("hsl(", hd);
    var x2 := x1 + hf;
    NoUpperConcat(x1, hf);
    var x3 := x2 + u;
    NoUpperConcat(x2, u);
    var x4 := x3 + ",";
    NoUpperConcat(x3, ",");
    var x5 := x4 + sd;
    NoUpperConcat(x4, sd);
    var x6 := x5 + "%,";
    NoUpperConcat(x5, "%,");
    var x7 := x6 + ld;
    NoUpperConcat(x6, ld);
    NoUpperConcat(x7, "%)");
    var s := x7 + "%)";
    assert s[0] == x1[0] && s[|s| - 1] == ')';
  }

  /** hsl(hue, sd%, ld%): the hue as parseFloat reads it (a '/' fraction is
      dropped) with its unit, the percentages as they are, alpha 1, through
      the HSL computation and the range checks. */
  lemma ParseHslText(k: Keywords, context: Option<string>, s: string, hd: string, hf: string, u: string, sd: string, ld: string)
    requires Numeral(hd) && Fraction(hf) && HueUnitText(u) && Numeral(sd) && Numeral(ld)
    requires s == HslText(hd, hf, u, sd, ld) && s !in k
    ensures Parse(k, context, s) ==
      Validate(HslQuad(Num(FractionValue(hd, hf)), UnitOf(u), Num(DigitsValue(sd, 10) as real), Num(DigitsValue(ld, 10) as real), Num(1.0)))
  {
    HslTextSettled(hd, hf, u, sd, ld);
    ParseSettled(k, context, s);
    HslExec(hd, hf, u, sd, ld);
    InterpretHsl(s);
    ProcessHslText(hd, hf, u, sd, ld);
  }

  /** The decimal text of a channel is a numeral spelling it. */
  lemma DecimalNumeral(n: nat)
    ensures Numeral(Decimal(n)) && DigitsValue(Decimal(n), 10) == n
  {
    DecimalIsDigits(n);
    InRadixRoundTrip(n, 10);
  }

  /** toRGB text parses back to the colour with its channels rounded and
      alpha 1, unless the text has been made a keyword. */
  lemma ToRGBRoundTrip(k: Keywords, context: Option<string>, c: Rgba)
    requires c.Valid() && ToRGB(c) !in k
    ensures Parse(k, context, ToRGB(c)) == Success(Rgba(Channel(c.r) as real, Channel(c.g) as real, Channel(c.b) as real, 1.0))
  {
    var d1, d2, d3 := Decimal(Channel(c.r)), Decimal(Channel(c.g)), Decimal(Channel(c.b));
    DecimalNumeral(Channel(c.r));
    DecimalNumeral(Channel(c.g));
    DecimalNumeral(Channel(c.b));
    ParseRgbText(k, context, ToRGB(c), d1, d2, d3, ",");
  }

  /** Two toRGB texts are equal iff the rounded channels agree: toRGB forgets
      alpha and the fractions of the channels, and nothing else. */
  lemma RgbTextsEqual(c: Rgba, d: Rgba)
    requires c.Valid() && d.Valid()
    ensures ToRGB(c) == ToRGB(d) <==> Channel(c.r) == Channel(d.r) && Channel(c.g) == Channel(d.g) && Channel(c.b) == Channel(d.b)
  {
    if ToRGB(c) == ToRGB(d) {
      ToRGBRoundTrip(map[], None, c);
      ToRGBRoundTrip(map[], None, d);
    }
  }
}
