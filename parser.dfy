/** The parsing pipeline of the Color constructor as functions of its input:
    the text is trimmed and lower-cased, replaced through the keyword table
    (with currentcolor resolved against a context), HEX shorthand is
    expanded, then the schemes are tried from the last declared to the first
    and the first match is range-checked. */
module Parser {
  import opened Results
  import opened Text
  import opened Numbers
  import opened Regex
  import opened Schemes

  /** A value of the keyword-to-colour table: the colour text a keyword
      stands for, or the currentcolor resolver. */
  datatype Entry = Canonical(text: string) | CurrentColor

  /** keywords2colors, from keyword to entry. */
  type Keywords = map<string, Entry>

  /** The channels of a parsed colour. */
  datatype Rgba = Rgba(r: real, g: real, b: real, a: real) {
    /** What the constructor's range checks guarantee of every Color. */
    predicate Valid() {
      0.0 <= r <= 255.0 && 0.0 <= g <= 255.0 && 0.0 <= b <= 255.0 && 0.0 <= a <= 1.0
    }
  }

  /** The input trimmed and lower-cased. */
  function Normalize(s: string): string {
    ToLower(Trim(s))
  }

  /** Normalizing twice is normalizing once. */
  lemma NormalizeIdempotent(s: string)
    ensures Normalize(Normalize(s)) == Normalize(s)
  {
    var t := Trim(s);
    var u := ToLower(t);
    TrimEdges(s);
    LowerKeepsSpace(t);
    TrimUnchanged(u);
  }

  /** The keyword substitution: an entry with colour text replaces the input
      (an empty text does not, being falsy); the currentcolor entry takes
      the computed colour of the context element, and fails without one. The
      resolver's result is used as it is, without trimming or a further
      lookup. */
  function Resolve(k: Keywords, context: Option<string>, s: string): (r: Result<string>)
    ensures r.Failure? <==> s in k && k[s].CurrentColor? && context.None?
    ensures r.Failure? ==> r.error == CurrentColorWithoutContext
    ensures s !in k ==> r == Success(s)
  {
    if s in k then
      match k[s]
      case CurrentColor =>
        if context.Some? then Success(context.value) else Failure(CurrentColorWithoutContext)
      case Canonical(t) => Success(if t == "" then s else t)
    else Success(s)
  }

  /** The hex digits after '#', cut to at most eight (substr(1, 8)).
      Lengths count characters, not UTF-16 code units. */
  function HexBody(s: string): string
    requires |s| > 0
  {
    if |s| <= 9 then s[1..] else s[1..9]
  }

  /** The text starts with '#'. */
  predicate IsHexText(s: string) {
    |s| > 0 && s[0] == '#'
  }

  /** HEX shorthand expansion: for text starting with '#', the body is
      expanded to eight digits by its length (3: each digit doubled and
      "ff" added; 4: each digit doubled; 6: "ff" added; 8: kept); any other
      length is rejected. Other text passes unchanged. */
  function ExpandHex(s: string): (r: Result<string>)
    ensures !IsHexText(s) ==> r == Success(s)
    ensures IsHexText(s) ==> (r.Success? <==> |HexBody(s)| in {3, 4, 6, 8})
    ensures IsHexText(s) && r.Success? ==> |r.value| == 8
    ensures r.Failure? ==> r.error == HexLength
  {
    if IsHexText(s) then
      var d := HexBody(s);
      if |d| == 3 then Success([d[0], d[0], d[1], d[1], d[2], d[2], 'f', 'f'])
      else if |d| == 4 then Success([d[0], d[0], d[1], d[1], d[2], d[2], d[3], d[3]])
      else if |d| == 6 then Success(d + "ff")
      else if |d| == 8 then Success(d)
      else Failure(HexLength)
    else Success(s)
  }

  /** #xyz stands for the opaque #xxyyzzff. */
  lemma HexShorthand3(x: char, y: char, z: char)
    ensures ExpandHex(['#', x, y, z]) == ExpandHex(['#', x, x, y, y, z, z, 'f', 'f'])
  {
    assert HexBody(['#', x, y, z]) == [x, y, z];
    assert HexBody(['#', x, x, y, y, z, z, 'f', 'f']) == [x, x, y, y, z, z, 'f', 'f'];
  }

  /** #wxyz stands for #wwxxyyzz. */
  lemma HexShorthand4(w: char, x: char, y: char, z: char)
    ensures ExpandHex(['#', w, x, y, z]) == ExpandHex(['#', w, w, x, x, y, y, z, z])
  {
    assert HexBody(['#', w, x, y, z]) == [w, x, y, z];
    assert HexBody(['#', w, w, x, x, y, y, z, z]) == [w, w, x, x, y, y, z, z];
  }

  /** Six digits stand for the same colour with an opaque alpha. */
  lemma HexOpaque(d: string)
    requires |d| == 6
    ensures ExpandHex("#" + d) == ExpandHex("#" + d + "ff")
  {
    assert HexBody("#" + d) == d;
    assert HexBody("#" + d + "ff") == d + "ff";
  }

  /** Whatever follows the eighth digit is ignored. */
  lemma HexTruncated(d: string, rest: string)
    requires |d| == 8
    ensures ExpandHex("#" + d + rest) == ExpandHex("#" + d)
  {
    assert HexBody("#" + d + rest) == d;
    assert HexBody("#" + d) == d;
  }

  /** The range checks, in the order red, green, blue, alpha: the first one that
      fails decides the error; a channel that is NaN fails its check. */
  function Validate(q: Quad): (r: Result<Rgba>)
    ensures r.Success? <==> InRange(q.r, 255.0) && InRange(q.g, 255.0) && InRange(q.b, 255.0) && InRange(q.a, 1.0)
    ensures r.Success? ==> r.value.Valid() && r.value == Rgba(q.r.val, q.g.val, q.b.val, q.a.val)
    ensures r == Failure(RedValue) <==> !InRange(q.r, 255.0)
    ensures r == Failure(GreenValue) <==> InRange(q.r, 255.0) && !InRange(q.g, 255.0)
    ensures r == Failure(BlueValue) <==> InRange(q.r, 255.0) && InRange(q.g, 255.0) && !InRange(q.b, 255.0)
    ensures r == Failure(AlphaValue) <==> InRange(q.r, 255.0) && InRange(q.g, 255.0) && InRange(q.b, 255.0) && !InRange(q.a, 1.0)
  {
    if !InRange(q.r, 255.0) then Failure(RedValue)
    else if !InRange(q.g, 255.0) then Failure(GreenValue)
    else if !InRange(q.b, 255.0) then Failure(BlueValue)
    else if !InRange(q.a, 1.0) then Failure(AlphaValue)
    else Success(Rgba(q.r.val, q.g.val, q.b.val, q.a.val))
  }

  /** The errors the scheme loop can end with. */
  predicate IsSchemeError(e: Error) {
    e in {RedValue, GreenValue, BlueValue, AlphaValue, Unparsable}
  }

  /** The scheme loop from index i down to 0: the first scheme whose pattern
      matches decides, through its range checks; when none matches, the
      text is unparsable. */
  function Scan(s: string, i: int): (r: Result<Rgba>)
    requires -1 <= i < |AllSchemes|
    ensures r.Success? ==> r.value.Valid()
    ensures r.Failure? ==> IsSchemeError(r.error)
    ensures r == Failure(Unparsable) <==> forall j :: 0 <= j <= i ==> Exec(AllSchemes[j].Pattern(), s).None?
    decreases i + 1
  {
    if i < 0 then Failure(Unparsable)
    else
      match Exec(AllSchemes[i].Pattern(), s)
      case Some(bits) => Validate(AllSchemes[i].Process(bits))
      case None => Scan(s, i - 1)
  }

  /** The scheme loop over all the schemes, from the last declared (HEX) to
      the first (HSL(A)). */
  function Interpret(s: string): Result<Rgba> {
    Scan(s, |AllSchemes| - 1)
  }

  /** The whole constructor: normalize, substitute, expand, interpret. */
  function Parse(k: Keywords, context: Option<string>, s: string): (r: Result<Rgba>)
    ensures r.Success? ==> r.value.Valid()
    ensures r.Failure? ==> r.error.IsColorError()
  {
    match Resolve(k, context, Normalize(s))
    case Failure(e) => Failure(e)
    case Success(t) => Finish(t)
  }

  /** What the constructor does with the text once it is substituted: the
      HEX expansion, then the scheme loop. */
  function Finish(t: string): (r: Result<Rgba>)
    ensures r.Success? ==> r.value.Valid()
    ensures r.Failure? ==> r.error == HexLength || IsSchemeError(r.error)
  {
    match ExpandHex(t)
    case Failure(e) => Failure(e)
    case Success(u) => Interpret(u)
  }

  /** The constructor is insensitive to case and to surrounding white space. */
  lemma ParseNormalized(k: Keywords, context: Option<string>, s: string)
    ensures Parse(k, context, Normalize(s)) == Parse(k, context, s)
  {
    NormalizeIdempotent(s);
  }

  /** The scheme loop in declaration order, from a given index up. */
  function ScanUp(s: string, i: nat): Result<Rgba>
    requires i <= |AllSchemes|
    decreases |AllSchemes| - i
  {
    if i == |AllSchemes| then Failure(Unparsable)
    else
      match Exec(AllSchemes[i].Pattern(), s)
      case Some(bits) => Validate(AllSchemes[i].Process(bits))
      case None => ScanUp(s, i + 1)
  }

  /** Trying the schemes in declaration order would give the same result:
      no text matches two of them. */
  lemma SchemeOrderIrrelevant(s: string)
    ensures Interpret(s) == ScanUp(s, 0)
  {
    SchemesExclusive(s);
    assert AllSchemes[0].Pattern() == HslPattern;
    assert AllSchemes[1].Pattern() == RgbPattern;
    assert AllSchemes[2].Pattern() == HexPattern;
  }

  /** The colour eight lower-case hex digits spell: four bytes, the last
      one as a fraction of 255. */
  function HexRgba(s: string): (c: Rgba)
    requires |s| == 8 && AllLowerHex(s)
    ensures c.Valid()
  {
    HexBytes(s);
    Rgba(Byte(s[0], s[1]) as real, Byte(s[2], s[3]) as real, Byte(s[4], s[5]) as real, Byte(s[6], s[7]) as real / 255.0)
  }

  /** The range checks pass on the values HEX text yields. */
  lemma ValidateHex(q: Quad, s: string)
    requires |s| == 8 && AllLowerHex(s)
    requires q == Quad(Num(Byte(s[0], s[1]) as real), Num(Byte(s[2], s[3]) as real),
                       Num(Byte(s[4], s[5]) as real), Num(Byte(s[6], s[7]) as real / 255.0))
    ensures Validate(q) == Success(HexRgba(s))
  {
    HexBytes(s);
  }

  /** Eight lower-case hex digits always parse, as the bytes they spell:
      HEX input cannot fail the range checks. */
  lemma InterpretHex(s: string)
    requires |s| == 8 && AllLowerHex(s)
    ensures Interpret(s) == Success(HexRgba(s))
  {
    HexExec(s);
    HexValues(s);
    assert AllSchemes[2] == HexScheme;
    ValidateHex(ProcessHex(HexCaptures(s)), s);
  }

  /** Hex digits and '#' are untouched by trimming and lower-casing. */
  lemma NormalizeHex(s: string)
    requires |s| == 8 && AllLowerHex(s)
    ensures Normalize(s) == s
    ensures Normalize("#" + s) == "#" + s
  {
    TrimUnchanged(s);
    TrimUnchanged("#" + s);
    LowerUnchanged(s);
    LowerUnchanged("#" + s);
  }

  /** "#" and eight lower-case hex digits parse as the bytes they spell,
      unless the text has been made a keyword. */
  lemma ParseHex(k: Keywords, context: Option<string>, s: string)
    requires |s| == 8 && AllLowerHex(s)
    requires "#" + s !in k
    ensures Parse(k, context, "#" + s) == Success(HexRgba(s))
  {
    NormalizeHex(s);
    FinishHex(s);
  }

  lemma FinishHex(s: string)
    requires |s| == 8 && AllLowerHex(s)
    ensures Finish("#" + s) == Success(HexRgba(s))
  {
    ExpandFull(s);
    InterpretHex(s);
  }

  /** Eight digits after '#' are kept as they are. */
  lemma ExpandFull(d: string)
    requires |d| == 8
    ensures ExpandHex("#" + d) == Success(d)
  {
    assert HexBody("#" + d) == d;
  }

  /** The eight digits parse the same without the '#': the HEX pattern is
      also tried on text that never started with one. */
  lemma ParseBareHex(k: Keywords, context: Option<string>, s: string)
    requires |s| == 8 && AllLowerHex(s)
    requires s !in k && "#" + s !in k
    ensures Parse(k, context, s) == Parse(k, context, "#" + s)
  {
    NormalizeHex(s);
    InterpretHex(s);
    ParseHex(k, context, s);
  }

  /** A keyword whose entry is eight lower-case hex digits, as every entry
      of the built-in table is, parses as those bytes. */
  lemma ParseKeyword(k: Keywords, context: Option<string>, name: string, h: string)
    requires Normalize(name) in k && k[Normalize(name)] == Canonical(h)
    requires |h| == 8 && AllLowerHex(h)
    ensures Parse(k, context, name) == Success(HexRgba(h))
  {
    InterpretHex(h);
  }

  /** currentcolor fails without a context element, and otherwise parses
      the element's computed colour, which is not substituted again. */
  lemma ParseCurrentColor(k: Keywords, context: Option<string>, s: string)
    requires Normalize(s) in k && k[Normalize(s)] == CurrentColor
    ensures context.None? ==> Parse(k, context, s) == Failure(CurrentColorWithoutContext)
    ensures context.Some? ==> Parse(k, context, s) == Finish(context.value)
  {
  }

  /** HEX text of a length other than 3, 4, 6 or 8 digits (after the cut to
      eight) is rejected. */
  lemma ParseHexLength(k: Keywords, context: Option<string>, s: string)
    requires IsHexText(Normalize(s)) && Normalize(s) !in k
    requires |HexBody(Normalize(s))| !in {3, 4, 6, 8}
    ensures Parse(k, context, s) == Failure(HexLength)
  {
  }

  /** "#" and three lower-case hex digits parse as the opaque colour of the
      doubled digits, unless the text has been made a keyword. */
  lemma ParseShorthand(k: Keywords, context: Option<string>, x: char, y: char, z: char)
    requires IsLowerHex(x) && IsLowerHex(y) && IsLowerHex(z)
    requires ['#', x, y, z] !in k
    ensures AllLowerHex([x, x, y, y, z, z, 'f', 'f'])
    ensures Parse(k, context, ['#', x, y, z]) == Success(HexRgba([x, x, y, y, z, z, 'f', 'f']))
  {
    var t, d := ['#', x, y, z], [x, x, y, y, z, z, 'f', 'f'];
    TrimUnchanged(t);
    LowerUnchanged(t);
    assert HexBody(t) == [x, y, z];
    assert ExpandHex(t) == Success(d);
    InterpretHex(d);
  }
}
