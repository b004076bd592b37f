/** rgb(p1%,p2%,p3%): the range check on the scaled percentages, and the
    colour such a text parses to when every percentage is at most 100.
    The percentages x, y, z are the values of the numerals p1, p2, p3, and
    the channels r, g, b are 255 / 100 times them. */
module PercentTexts {
  import opened Results
  import opened Text
  import opened Numbers
  import opened Schemes
  import opened SchemeTexts
  import opened Parser
  import opened Format
  import opened ParseTexts

  /** The quad of three scaled percentages passes the range checks exactly
      when no percentage exceeds 100. */
  lemma PercentQuadInRange(x: real, y: real, z: real)
    requires 0.0 <= x && 0.0 <= y && 0.0 <= z
    ensures Validate(Quad(Num(x * 255.0 / 100.0), Num(y * 255.0 / 100.0), Num(z * 255.0 / 100.0), Num(1.0))).Success? <==>
      x <= 100.0 && y <= 100.0 && z <= 100.0
  {
    PercentScale(x);
    PercentScale(y);
    PercentScale(z);
  }

  /** Percentages of at most 100 pass the range checks unchanged. */
  lemma PercentQuad(res: Result<Rgba>, x: real, y: real, z: real, r: real, g: real, b: real)
    requires 0.0 <= x <= 100.0 && 0.0 <= y <= 100.0 && 0.0 <= z <= 100.0
    requires r == x * 255.0 / 100.0 && g == y * 255.0 / 100.0 && b == z * 255.0 / 100.0
    requires res == Validate(Quad(Num(x * 255.0 / 100.0), Num(y * 255.0 / 100.0), Num(z * 255.0 / 100.0), Num(1.0)))
    ensures res == Success(Rgba(r, g, b, 1.0))
  {
  }

  /** The quad of the scaled numerals is the quad of the scaled percentages. */
  lemma PercentQuadOfNumerals(p1: string, p2: string, p3: string, x: real, y: real, z: real)
    requires x == DigitsValue(p1, 10) as real && y == DigitsValue(p2, 10) as real && z == DigitsValue(p3, 10) as real
    ensures Quad(Num(DigitsValue(p1, 10) as real * 255.0 / 100.0), Num(DigitsValue(p2, 10) as real * 255.0 / 100.0),
                 Num(DigitsValue(p3, 10) as real * 255.0 / 100.0), Num(1.0)) ==
            Quad(Num(x * 255.0 / 100.0), Num(y * 255.0 / 100.0), Num(z * 255.0 / 100.0), Num(1.0))
  {
  }

  /** rgb(p1%,p2%,p3%) is the range check of the quad of the scaled
      percentages. */
  lemma ParsePercentValues(k: Keywords, context: Option<string>, s: string, p1: string, p2: string, p3: string,
                           x: real, y: real, z: real)
    requires Numeral(p1) && Numeral(p2) && Numeral(p3)
    requires s == RgbPercentText(p1, p2, p3) && s !in k
    requires x == DigitsValue(p1, 10) as real && y == DigitsValue(p2, 10) as real && z == DigitsValue(p3, 10) as real
    ensures Parse(k, context, s) == Validate(Quad(Num(x * 255.0 / 100.0), Num(y * 255.0 / 100.0), Num(z * 255.0 / 100.0), Num(1.0)))
  {
    ParseRgbPercentText(k, context, s, p1, p2, p3);
    PercentQuadOfNumerals(p1, p2, p3, x, y, z);
  }

  /** rgb(p1%,p2%,p3%) parses exactly when no percentage exceeds 100. */
  lemma ParseRgbPercentInRange(k: Keywords, context: Option<string>, s: string, p1: string, p2: string, p3: string,
                               x: real, y: real, z: real)
    requires Numeral(p1) && Numeral(p2) && Numeral(p3)
    requires s == RgbPercentText(p1, p2, p3) && s !in k
    requires x == DigitsValue(p1, 10) as real && y == DigitsValue(p2, 10) as real && z == DigitsValue(p3, 10) as real
    ensures Parse(k, context, s).Success? <==> x <= 100.0 && y <= 100.0 && z <= 100.0
  {
    ParsePercentValues(k, context, s, p1, p2, p3, x, y, z);
    PercentQuadInRange(x, y, z);
  }

  /** rgb(p1%,p2%,p3%) with percentages of at most 100 is the opaque colour
      whose channels are 2.55 times the percentages. */
  lemma ParseRgbPercentColour(k: Keywords, context: Option<string>, s: string, p1: string, p2: string, p3: string,
                              x: real, y: real, z: real, r: real, g: real, b: real)
    requires Numeral(p1) && Numeral(p2) && Numeral(p3)
    requires s == RgbPercentText(p1, p2, p3) && s !in k
    requires x == DigitsValue(p1, 10) as real && y == DigitsValue(p2, 10) as real && z == DigitsValue(p3, 10) as real
    requires x <= 100.0 && y <= 100.0 && z <= 100.0
    requires r == x * 255.0 / 100.0 && g == y * 255.0 / 100.0 && b == z * 255.0 / 100.0
    ensures Parse(k, context, s) == Success(Rgba(r, g, b, 1.0))
  {
    ParsePercentValues(k, context, s, p1, p2, p3, x, y, z);
    PercentQuad(Parse(k, context, s), x, y, z, r, g, b);
  }
}
