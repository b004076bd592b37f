/** The comparisons between two colours: equals, difference and
    brightness. */
module Metrics {
  import opened Results
  import opened Text
  import opened Numbers
  import opened Schemes
  import opened Parser
  import opened Format

  /** The argument of equals and difference: a colour string, which is
      parsed as by the constructor without a context, a Color object with
      its channels and fixed setting, or any other value. */
  datatype Operand = Text(s: string) | Instance(value: Rgba, fixed: int) | Other

  predicate WellFormed(o: Operand) {
    o.Instance? ==> o.value.Valid()
  }

  /** The Color an operand denotes: None for a value that is neither a
      string nor a Color, an error when a string does not parse. */
  function Operand2Color(k: Keywords, o: Operand): (r: Result<Option<(Rgba, int)>>)
    requires WellFormed(o)
    ensures r.Success? && r.value.Some? ==> r.value.value.0.Valid()
    ensures r.Success? && r.value.None? <==> o.Other?
    ensures r.Failure? <==> o.Text? && Parse(k, None, o.s).Failure?
    ensures r.Failure? ==> r.error.IsColorError()
  {
    match o
    case Other => Success(None)
    case Instance(v, f) => Success(Some((v, f)))
    case Text(s) =>
      match Parse(k, None, s)
      case Failure(e) => Failure(e)
      case Success(v) => Success(Some((v, DefaultFixed)))
  }

  /** equals: the toRGBA texts of the two colours, each with its own fixed
      setting, are the same; false for an argument that is not a colour. */
  function Equals(k: Keywords, c: Rgba, fixed: int, o: Operand): Result<bool>
    requires c.Valid() && WellFormed(o)
  {
    match Operand2Color(k, o)
    case Failure(e) => Failure(e)
    case Success(None) => Success(false)
    case Success(Some((d, g))) =>
      match ToRGBA(c, fixed)
      case Failure(e) => Failure(e)
      case Success(mine) =>
        match ToRGBA(d, g)
        case Failure(e) => Failure(e)
        case Success(theirs) => Success(mine == theirs)
  }

  /** The toRGBA text, with its comma-separated fields grouped to the right. */
  lemma RgbaFields(c: Rgba, fixed: int)
    requires c.Valid() && 0 <= 2 * fixed <= 100
    ensures ToRGBA(c, fixed).Success?
    ensures ToRGBA(c, fixed).value
         == "rgba(" + (Decimal(Channel(c.r)) + "," + (Decimal(Channel(c.g)) + "," +
            (Decimal(Channel(c.b)) + "," + FixedText(c.a, 2 * fixed)))) + ")"
  {
  }

  /** Two toRGBA texts are the same exactly when the rounded channels are
      the same and the alphas are written alike. */
  lemma RgbaTextsEqual(c: Rgba, f: int, d: Rgba, g: int)
    requires c.Valid() && d.Valid() && 0 <= 2 * f <= 100 && 0 <= 2 * g <= 100
    ensures ToRGBA(c, f).Success? && ToRGBA(d, g).Success?
    ensures ToRGBA(c, f).value == ToRGBA(d, g).value <==>
      Channel(c.r) == Channel(d.r) && Channel(c.g) == Channel(d.g) && Channel(c.b) == Channel(d.b) &&
      FixedText(c.a, 2 * f) == FixedText(d.a, 2 * g)
  {
    RgbaFields(c, f);
    RgbaFields(d, g);
    var r1, g1, b1, a1 := Decimal(Channel(c.r)), Decimal(Channel(c.g)), Decimal(Channel(c.b)), FixedText(c.a, 2 * f);
    var r2, g2, b2, a2 := Decimal(Channel(d.r)), Decimal(Channel(d.g)), Decimal(Channel(d.b)), FixedText(d.a, 2 * g);
    var in1 := r1 + "," + (g1 + "," + (b1 + "," + a1));
    var in2 := r2 + "," + (g2 + "," + (b2 + "," + a2));
    if ToRGBA(c, f).value == ToRGBA(d, g).value {
      var t1, t2 := "rgba(" + in1 + ")", "rgba(" + in2 + ")";
      assert in1 == t1[5..|t1| - 1] && in2 == t2[5..|t2| - 1];
      DecimalNoComma(Channel(c.r));
      DecimalNoComma(Channel(d.r));
      DecimalNoComma(Channel(c.g));
      DecimalNoComma(Channel(d.g));
      DecimalNoComma(Channel(c.b));
      DecimalNoComma(Channel(d.b));
      SplitAtComma(r1, g1 + "," + (b1 + "," + a1), r2, g2 + "," + (b2 + "," + a2));
      SplitAtComma(g1, b1 + "," + a1, g2, b2 + "," + a2);
      SplitAtComma(b1, a1, b2, a2);
      DecimalInjective(Channel(c.r), Channel(d.r));
      DecimalInjective(Channel(c.g), Channel(d.g));
      DecimalInjective(Channel(c.b), Channel(d.b));
    }
  }

  /** equals with a value that is neither a string nor a Color is false. */
  lemma EqualsOther(k: Keywords, c: Rgba, fixed: int)
    requires c.Valid()
    ensures Equals(k, c, fixed, Other) == Success(false)
  {
  }

  /** equals with a string compares against the colour the string parses
      to, written with the default fixed setting; a string that does not
      parse is an error, not a false. */
  lemma EqualsText(k: Keywords, c: Rgba, fixed: int, s: string)
    requires c.Valid()
    ensures Parse(k, None, s).Failure? ==> Equals(k, c, fixed, Text(s)) == Failure(Parse(k, None, s).error)
    ensures Parse(k, None, s).Success? ==>
      Equals(k, c, fixed, Text(s)) == Equals(k, c, fixed, Instance(Parse(k, None, s).value, DefaultFixed))
  {
  }

  /** equals between two colours: a RangeError when a fixed setting is out
      of range, otherwise true exactly when the rounded channels agree and
      the alphas are written alike. */
  lemma EqualsInstance(k: Keywords, c: Rgba, f: int, d: Rgba, g: int)
    requires c.Valid() && d.Valid()
    ensures Equals(k, c, f, Instance(d, g)).Failure? <==> !(0 <= 2 * f <= 100 && 0 <= 2 * g <= 100)
    ensures Equals(k, c, f, Instance(d, g)).Failure? ==> Equals(k, c, f, Instance(d, g)).error == DigitsOutOfRange
    ensures Equals(k, c, f, Instance(d, g)).Success? ==>
      (Equals(k, c, f, Instance(d, g)).value <==>
         Channel(c.r) == Channel(d.r) && Channel(c.g) == Channel(d.g) && Channel(c.b) == Channel(d.b) &&
         FixedText(c.a, 2 * f) == FixedText(d.a, 2 * g))
  {
    if 0 <= 2 * f <= 100 && 0 <= 2 * g <= 100 {
      RgbaTextsEqual(c, f, d, g);
    }
  }

  /** A colour equals itself, whenever its fixed setting is usable. */
  lemma EqualsReflexive(k: Keywords, c: Rgba, f: int)
    requires c.Valid() && 0 <= 2 * f <= 100
    ensures Equals(k, c, f, Instance(c, f)) == Success(true)
  {
  }

  /** equals between two Color objects does not depend on which is asked. */
  lemma EqualsSymmetric(k: Keywords, c: Rgba, f: int, d: Rgba, g: int)
    requires c.Valid() && d.Valid()
    ensures Equals(k, c, f, Instance(d, g)) == Equals(k, d, g, Instance(c, f))
  {
  }

  /** Colours equal to a common one are equal. */
  lemma EqualsTransitive(k: Keywords, c: Rgba, f: int, d: Rgba, g: int, e: Rgba, h: int)
    requires c.Valid() && d.Valid() && e.Valid()
    requires Equals(k, c, f, Instance(d, g)) == Success(true)
    requires Equals(k, d, g, Instance(e, h)) == Success(true)
    ensures Equals(k, c, f, Instance(e, h)) == Success(true)
  {
  }

  /** The sum of the channel distances, each written max - min. */
  function Distance(c: Rgba, d: Rgba): real {
    (Max(c.r, d.r) - Min(c.r, d.r)) + (Max(c.g, d.g) - Min(c.g, d.g)) + (Max(c.b, d.b) - Min(c.b, d.b))
  }

  /** difference: the channel distance to the colour given, or -1 for a
      value that is neither a string nor a Color. */
  function Difference(k: Keywords, c: Rgba, o: Operand): (r: Result<real>)
    requires c.Valid() && WellFormed(o)
    ensures r.Failure? <==> o.Text? && Parse(k, None, o.s).Failure?
    ensures r == Success(-1.0) <==> o.Other?
  {
    match Operand2Color(k, o)
    case Failure(e) => Failure(e)
    case Success(None) => Success(-1.0)
    case Success(Some((d, _))) =>
      DistanceMetric(c, d);
      Success(Distance(c, d))
  }

  /** The channel distance is a metric on the channels: symmetric, zero
      exactly between equal channels, and at most 3 * 255 between valid
      colours. */
  lemma DistanceMetric(c: Rgba, d: Rgba)
    ensures Distance(c, d) == Distance(d, c)
    ensures Distance(c, d) >= 0.0
    ensures Distance(c, d) == 0.0 <==> c.r == d.r && c.g == d.g && c.b == d.b
    ensures c.Valid() && d.Valid() ==> Distance(c, d) <= 765.0
  {
  }

  lemma DistanceTriangle(c: Rgba, d: Rgba, e: Rgba)
    ensures Distance(c, e) <= Distance(c, d) + Distance(d, e)
  {
  }

  /** difference between two Color objects is symmetric and is 0 exactly for
      equal channels. */
  lemma DifferenceSymmetric(k: Keywords, c: Rgba, f: int, d: Rgba, g: int)
    requires c.Valid() && d.Valid()
    ensures Difference(k, c, Instance(d, g)) == Difference(k, d, Instance(c, f))
    ensures Difference(k, c, Instance(d, g)) == Success(0.0) <==> c.r == d.r && c.g == d.g && c.b == d.b
  {
    DistanceMetric(c, d);
  }

  /** A three-digit HEX text differs by nothing from the colour of its
      doubled digits ("#000" against "#000000"). */
  lemma DifferenceShorthand(k: Keywords, x: char, y: char, z: char)
    requires IsLowerHex(x) && IsLowerHex(y) && IsLowerHex(z)
    requires ['#', x, y, z] !in k
    ensures AllLowerHex([x, x, y, y, z, z, 'f', 'f'])
    ensures Difference(k, HexRgba([x, x, y, y, z, z, 'f', 'f']), Text(['#', x, y, z])) == Success(0.0)
  {
    ParseShorthand(k, None, x, y, z);
    var c := HexRgba([x, x, y, y, z, z, 'f', 'f']);
    DistanceMetric(c, c);
  }

  /** brightness: the weighted sum of section 2.2 of W3C's "Techniques for
      Accessibility Evaluation and Repair Tools". */
  function Brightness(c: Rgba): real {
    (c.r * 299.0 + c.g * 587.0 + c.b * 114.0) / 1000.0
  }

  /** The weights sum to one: brightness lies between the smallest and the
      largest channel, so within [0, 255], and a grey is as bright as its
      channels. */
  lemma BrightnessBounds(c: Rgba)
    ensures Min(c.r, Min(c.g, c.b)) <= Brightness(c) <= Max(c.r, Max(c.g, c.b))
    ensures c.Valid() ==> 0.0 <= Brightness(c) <= 255.0
    ensures c.r == c.g == c.b ==> Brightness(c) == c.r
  {
  }

  /** Brightening any channel never darkens the colour. */
  lemma BrightnessMonotone(c: Rgba, d: Rgba)
    requires c.r <= d.r && c.g <= d.g && c.b <= d.b
    ensures Brightness(c) <= Brightness(d)
  {
  }

  /** "#000" has brightness 0 and "#fff" brightness 255. */
  lemma BrightnessBlackWhite(k: Keywords, context: Option<string>)
    requires "#000" !in k && "#fff" !in k
    ensures Parse(k, context, "#000").Success? && Brightness(Parse(k, context, "#000").value) == 0.0
    ensures Parse(k, context, "#fff").Success? && Brightness(Parse(k, context, "#fff").value) == 255.0
  {
    assert "#000" == ['#', '0', '0', '0'] && "#fff" == ['#', 'f', 'f', 'f'];
    ParseShorthand(k, context, '0', '0', '0');
    ParseShorthand(k, context, 'f', 'f', 'f');
    var black, white := "000000ff", "ffffffff";
    assert Byte('0', '0') == 0 && Byte('f', 'f') == 255;
    assert HexRgba(black).r == 0.0 && HexRgba(black).g == 0.0 && HexRgba(black).b == 0.0;
    assert HexRgba(white).r == 255.0 && HexRgba(white).g == 255.0 && HexRgba(white).b == 255.0;
    BrightnessBounds(HexRgba(black));
    BrightnessBounds(HexRgba(white));
  }
}
