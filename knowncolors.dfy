/** Colour strings the library's test suite uses, through the constructor:
    the error of each malformed string, and red, rebeccapurple and a grey
    written in the different schemes. Each is an instance of the general
    lemmas about RGB(A), HSL(A) and HEX text; the small lemmas beside them
    spell out the values of the numerals involved. */
module KnownColors {
  import opened Results
  import opened Text
  import opened Numbers
  import opened Schemes
  import opened SchemeTexts
  import opened Parser
  import opened Format
  import opened Metrics
  import opened ParseTexts
  import opened PercentTexts

  /** Six hex digits after '#' are expanded with an opaque "ff". */
  lemma ExpandSix(d: string)
    requires |d| == 6
    ensures ExpandHex("#" + d) == Success(d + "ff")
  {
    assert HexBody("#" + d) == d;
  }

  /** Text that normalizes to '#' and six hex digits parses as the opaque
      colour of those digits. */
  lemma ParseOpaqueHex(k: Keywords, context: Option<string>, s: string, t: string, d: string)
    requires |d| == 6 && AllLowerHex(d + "ff")
    requires Normalize(s) == t && t == "#" + d && t !in k
    ensures Parse(k, context, s) == Success(HexRgba(d + "ff"))
  {
    ExpandSix(d);
    InterpretHex(d + "ff");
  }

  // Channels out of range, alpha out of range, bad HEX length, currentcolor
  // without a context and a word that is no colour.

  lemma Numerals300()
    ensures DigitsValue("0", 10) == 0 && DigitsValue("300", 10) == 300
  {
    assert "300"[..2] == "30" && "30"[..1] == "3" && "3"[..0] == "";
  }

  /** A red channel above 255 fails the red check. */
  lemma RedChannelError(k: Keywords, context: Option<string>)
    requires "rgb(300, 0, 0)" !in k
    ensures Parse(k, context, "rgb(300, 0, 0)") == Failure(RedValue)
  {
    Numerals300();
    ParseRgbText(k, context, "rgb(300, 0, 0)", "300", "0", "0", ", ");
  }

  /** A green channel above 255 fails the green check. */
  lemma GreenChannelError(k: Keywords, context: Option<string>)
    requires "rgb(0, 300, 0)" !in k
    ensures Parse(k, context, "rgb(0, 300, 0)") == Failure(GreenValue)
  {
    Numerals300();
    ParseRgbText(k, context, "rgb(0, 300, 0)", "0", "300", "0", ", ");
  }

  /** A blue channel above 255 fails the blue check. */
  lemma BlueChannelError(k: Keywords, context: Option<string>)
    requires "rgb(0, 0, 300)" !in k
    ensures Parse(k, context, "rgb(0, 0, 300)") == Failure(BlueValue)
  {
    Numerals300();
    ParseRgbText(k, context, "rgb(0, 0, 300)", "0", "0", "300", ", ");
  }

  lemma Alpha200()
    ensures DigitsValue("0", 10) == 0 && AlphaText("200", "", "%") == 2.0
  {
    assert "200"[..2] == "20" && "20"[..1] == "2" && "2"[..0] == "";
  }

  /** An alpha of 200% is 2, above the alpha range. */
  lemma AlphaError(k: Keywords, context: Option<string>)
    requires "rgba(0, 0, 0, 200%)" !in k
    ensures Parse(k, context, "rgba(0, 0, 0, 200%)") == Failure(AlphaValue)
  {
    Alpha200();
    ParseRgbaText(k, context, "rgba(0, 0, 0, 200%)", "0", "0", "0", ", ", ", ", "200", "", "%");
  }

  /** Two hex digits are too few. */
  lemma HexLengthError(k: Keywords, context: Option<string>)
    requires "#f3" !in k
    ensures Parse(k, context, "#F3") == Failure(HexLength)
  {
    TrimUnchanged("#F3");
    assert Normalize("#F3") == "#f3";
    ParseHexLength(k, context, "#F3");
  }

  /** currentcolor, in any case, needs a context colour. */
  lemma CurrentColorError(k: Keywords)
    requires "currentcolor" in k && k["currentcolor"] == CurrentColor
    ensures Parse(k, None, "currentColor") == Failure(CurrentColorWithoutContext)
  {
    TrimUnchanged("currentColor");
    assert Normalize("currentColor") == "currentcolor";
    ParseCurrentColor(k, None, "currentColor");
  }

  /** A word that is no keyword matches no scheme. */
  lemma UnknownWordError(k: Keywords, context: Option<string>)
    requires "loodle" !in k
    ensures Parse(k, context, "loodle") == Failure(Unparsable)
  {
    ParseNoScheme(k, context, "loodle");
  }

  // Red: rgb(100%,0%,0%) and #FF0000.

  lemma Percents100()
    ensures DigitsValue("0", 10) == 0 && DigitsValue("100", 10) == 100
    ensures Numeral("100") && Numeral("0") && "rgb(100%,0%,0%)" == RgbPercentText("100", "0", "0")
  {
    assert "100"[..2] == "10" && "10"[..1] == "1" && "1"[..0] == "";
  }

  lemma RedPercent(k: Keywords, context: Option<string>)
    requires "rgb(100%,0%,0%)" !in k
    ensures Parse(k, context, "rgb(100%,0%,0%)") == Success(Rgba(255.0, 0.0, 0.0, 1.0))
  {
    Percents100();
    ParseRgbPercentColour(k, context, "rgb(100%,0%,0%)", "100", "0", "0", 100.0, 0.0, 0.0, 255.0, 0.0, 0.0);
  }

  lemma RedDigits()
    ensures Normalize("#FF0000") == "#ff0000" && "#ff0000" == "#" + "ff0000"
    ensures AllLowerHex("ff0000" + "ff") && HexRgba("ff0000" + "ff") == Rgba(255.0, 0.0, 0.0, 1.0)
  {
    TrimUnchanged("#FF0000");
  }

  lemma RedHex(k: Keywords, context: Option<string>)
    requires "#ff0000" !in k
    ensures Parse(k, context, "#FF0000") == Success(Rgba(255.0, 0.0, 0.0, 1.0))
  {
    RedDigits();
    ParseOpaqueHex(k, context, "#FF0000", "#ff0000", "ff0000");
  }

  // rebeccapurple: rgb(40%,20%,60%), #663399 and five HSL spellings.

  lemma Percents40()
    ensures DigitsValue("40", 10) == 40 && DigitsValue("20", 10) == 20 && DigitsValue("60", 10) == 60
    ensures Numeral("40") && Numeral("20") && Numeral("60") && "rgb(40%,20%,60%)" == RgbPercentText("40", "20", "60")
  {
    assert "40"[..1] == "4" && "20"[..1] == "2" && "60"[..1] == "6";
  }

  lemma RebeccaPercent(k: Keywords, context: Option<string>)
    requires "rgb(40%,20%,60%)" !in k
    ensures Parse(k, context, "rgb(40%,20%,60%)") == Success(Rgba(102.0, 51.0, 153.0, 1.0))
  {
    Percents40();
    ParseRgbPercentColour(k, context, "rgb(40%,20%,60%)", "40", "20", "60", 40.0, 20.0, 60.0, 102.0, 51.0, 153.0);
  }

  lemma RebeccaDigits()
    ensures Normalize("#663399") == "#663399" && "#663399" == "#" + "663399"
    ensures AllLowerHex("663399" + "ff") && HexRgba("663399" + "ff") == Rgba(102.0, 51.0, 153.0, 1.0)
  {
    TrimUnchanged("#663399");
    LowerUnchanged("#663399");
  }

  lemma RebeccaHex(k: Keywords, context: Option<string>)
    requires "#663399" !in k
    ensures Parse(k, context, "#663399") == Success(Rgba(102.0, 51.0, 153.0, 1.0))
  {
    RebeccaDigits();
    ParseOpaqueHex(k, context, "#663399", "#663399", "663399");
  }

  /** A hue of 270 degrees at 50% saturation and 40% lightness is
      rebeccapurple. */
  lemma RebeccaPurpleQuad(h: real, unit: Option<string>)
    requires HueDegrees(Num(h), unit) == Num(270.0)
    ensures Validate(HslQuad(Num(h), unit, Num(50.0), Num(40.0), Num(1.0))) == Success(Rgba(102.0, 51.0, 153.0, 1.0))
  {
    assert To360(Num(270.0)) == 270.0;
    assert HslToRgb(0.75, 0.5, 0.4) == (0.4, 0.2, 0.6);
  }

  /** hsl(hue,50%,40%) for any hue text worth 270 degrees. */
  lemma RebeccaHue(k: Keywords, context: Option<string>, s: string, hd: string, hf: string, u: string)
    requires Numeral(hd) && Fraction(hf) && HueUnitText(u)
    requires HueDegrees(Num(FractionValue(hd, hf)), UnitOf(u)) == Num(270.0)
    requires s == HslText(hd, hf, u, "50", "40") && s !in k
    ensures Parse(k, context, s) == Success(Rgba(102.0, 51.0, 153.0, 1.0))
  {
    assert "50"[..1] == "5" && "40"[..1] == "4";
    assert DigitsValue("50", 10) == 50 && DigitsValue("40", 10) == 40;
    ParseHslText(k, context, s, hd, hf, u, "50", "40");
    RebeccaPurpleQuad(FractionValue(hd, hf), UnitOf(u));
  }

  lemma Hue270()
    ensures HueDegrees(Num(FractionValue("270", "")), UnitOf("")) == Num(270.0)
    ensures "hsl(270,50%,40%)" == HslText("270", "", "", "50", "40")
  {
    assert "270"[..2] == "27" && "27"[..1] == "2" && "2"[..0] == "";
  }

  /** The hue as a bare number of degrees. */
  lemma RebeccaHsl(k: Keywords, context: Option<string>)
    requires "hsl(270,50%,40%)" !in k
    ensures Parse(k, context, "hsl(270,50%,40%)") == Success(Rgba(102.0, 51.0, 153.0, 1.0))
  {
    Hue270();
    RebeccaHue(k, context, "hsl(270,50%,40%)", "270", "", "");
  }

  lemma Hue270Deg()
    ensures HueDegrees(Num(FractionValue("270", "")), UnitOf("deg")) == Num(270.0)
    ensures "hsl(270deg,50%,40%)" == HslText("270", "", "deg", "50", "40")
  {
    assert "270"[..2] == "27" && "27"[..1] == "2" && "2"[..0] == "";
  }

  /** The hue in degrees. */
  lemma RebeccaHslDeg(k: Keywords, context: Option<string>)
    requires "hsl(270deg,50%,40%)" !in k
    ensures Parse(k, context, "hsl(270deg,50%,40%)") == Success(Rgba(102.0, 51.0, 153.0, 1.0))
  {
    Hue270Deg();
    RebeccaHue(k, context, "hsl(270deg,50%,40%)", "270", "", "deg");
  }

  lemma Hue300Grad()
    ensures HueDegrees(Num(FractionValue("300", "")), UnitOf("grad")) == Num(270.0)
    ensures "hsl(300grad,50%,40%)" == HslText("300", "", "grad", "50", "40")
  {
    assert "300"[..2] == "30" && "30"[..1] == "3" && "3"[..0] == "";
  }

  /** The hue in gradians: 300 gradians are 270 degrees. */
  lemma RebeccaHslGrad(k: Keywords, context: Option<string>)
    requires "hsl(300grad,50%,40%)" !in k
    ensures Parse(k, context, "hsl(300grad,50%,40%)") == Success(Rgba(102.0, 51.0, 153.0, 1.0))
  {
    Hue300Grad();
    RebeccaHue(k, context, "hsl(300grad,50%,40%)", "300", "", "grad");
  }

  lemma HueTurn()
    ensures HueDegrees(Num(FractionValue("0", ".75")), UnitOf("turn")) == Num(270.0)
    ensures "hsl(0.75turn,50%,40%)" == HslText("0", ".75", "turn", "50", "40")
  {
    assert ".75"[1..] == "75" && "75"[..1] == "7" && "7"[..0] == "";
    assert DigitsValue("75", 10) == 75 && DigitsValue("0", 10) == 0 && Pow10(2) == 100;
  }

  /** The hue in turns: 0.75 turn is 270 degrees. */
  lemma RebeccaHslTurn(k: Keywords, context: Option<string>)
    requires "hsl(0.75turn,50%,40%)" !in k
    ensures Parse(k, context, "hsl(0.75turn,50%,40%)") == Success(Rgba(102.0, 51.0, 153.0, 1.0))
  {
    HueTurn();
    RebeccaHue(k, context, "hsl(0.75turn,50%,40%)", "0", ".75", "turn");
  }

  lemma Hue270Slash()
    ensures HueDegrees(Num(FractionValue("270", "/5")), UnitOf("")) == Num(270.0)
    ensures "hsl(270/5,50%,40%)" == HslText("270", "/5", "", "50", "40")
  {
    assert "270"[..2] == "27" && "27"[..1] == "2" && "2"[..0] == "";
  }

  /** A '/' after the hue digits is captured, but parseFloat stops at it. */
  lemma RebeccaHslSlash(k: Keywords, context: Option<string>)
    requires "hsl(270/5,50%,40%)" !in k
    ensures Parse(k, context, "hsl(270/5,50%,40%)") == Success(Rgba(102.0, 51.0, 153.0, 1.0))
  {
    Hue270Slash();
    RebeccaHue(k, context, "hsl(270/5,50%,40%)", "270", "/5", "");
  }

  // A grey: hsl(10,0%,10%), written back and compared.

  lemma GreyNumerals()
    ensures DigitsValue("0", 10) == 0 && DigitsValue("10", 10) == 10 && FractionValue("10", "") == 10.0
    ensures "hsl(10,0%,10%)" == HslText("10", "", "", "0", "10")
  {
    assert "10"[..1] == "1";
  }

  /** hsl(10,0%,10%): saturation 0 gives three channels of 2.55 times the
      lightness. */
  lemma Grey(k: Keywords, context: Option<string>)
    requires "hsl(10,0%,10%)" !in k
    ensures Parse(k, context, "hsl(10,0%,10%)") == Success(Rgba(25.5, 25.5, 25.5, 1.0))
  {
    GreyNumerals();
    ParseHslText(k, context, "hsl(10,0%,10%)", "10", "", "", "0", "10");
    HslAchromatic(Num(10.0), None, 10.0, Num(1.0));
  }

  /** The grey is written "rgb(26,26,26)" by toRGB. */
  lemma GreyText()
    ensures Channel(25.5) == 26
    ensures ToRGB(Rgba(25.5, 25.5, 25.5, 1.0)) == "rgb(26,26,26)"
  {
    assert Decimal(26) == "26";
  }

  lemma GreyDigits()
    ensures Normalize("#1A1A1A") == "#1a1a1a" && "#1a1a1a" == "#" + "1a1a1a"
    ensures AllLowerHex("1a1a1a" + "ff") && HexRgba("1a1a1a" + "ff") == Rgba(26.0, 26.0, 26.0, 1.0)
  {
    TrimUnchanged("#1A1A1A");
  }

  lemma GreyHex(k: Keywords)
    requires "#1a1a1a" !in k
    ensures Parse(k, None, "#1A1A1A") == Success(Rgba(26.0, 26.0, 26.0, 1.0))
  {
    GreyDigits();
    ParseOpaqueHex(k, None, "#1A1A1A", "#1a1a1a", "1a1a1a");
  }

  lemma OffGreyDigits()
    ensures Normalize("#1A1A1B") == "#1a1a1b" && "#1a1a1b" == "#" + "1a1a1b"
    ensures AllLowerHex("1a1a1b" + "ff") && HexRgba("1a1a1b" + "ff") == Rgba(26.0, 26.0, 27.0, 1.0)
  {
    TrimUnchanged("#1A1A1B");
  }

  lemma OffGreyHex(k: Keywords)
    requires "#1a1a1b" !in k
    ensures Parse(k, None, "#1A1A1B") == Success(Rgba(26.0, 26.0, 27.0, 1.0))
  {
    OffGreyDigits();
    ParseOpaqueHex(k, None, "#1A1A1B", "#1a1a1b", "1a1a1b");
  }

  /** The grey equals "#1A1A1A": both round to 26 in every channel. */
  lemma GreyEqualsHex(k: Keywords)
    requires "#1a1a1a" !in k
    ensures Equals(k, Rgba(25.5, 25.5, 25.5, 1.0), DefaultFixed, Text("#1A1A1A")) == Success(true)
  {
    var c := Rgba(25.5, 25.5, 25.5, 1.0);
    GreyText();
    GreyHex(k);
    assert Channel(26.0) == 26;
    EqualsText(k, c, DefaultFixed, "#1A1A1A");
    EqualsInstance(k, c, DefaultFixed, Rgba(26.0, 26.0, 26.0, 1.0), DefaultFixed);
  }

  /** The grey does not equal "#1A1A1B": the blue channels differ. */
  lemma GreyDiffersHex(k: Keywords)
    requires "#1a1a1b" !in k
    ensures Equals(k, Rgba(25.5, 25.5, 25.5, 1.0), DefaultFixed, Text("#1A1A1B")) == Success(false)
  {
    var c := Rgba(25.5, 25.5, 25.5, 1.0);
    GreyText();
    OffGreyHex(k);
    assert Channel(27.0) == 27;
    EqualsText(k, c, DefaultFixed, "#1A1A1B");
    EqualsInstance(k, c, DefaultFixed, Rgba(26.0, 26.0, 27.0, 1.0), DefaultFixed);
  }
}
