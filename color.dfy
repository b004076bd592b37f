/** The Color object with its fields, and the keyword tables that
    Color.addKeyword extends. */
module ColorInterpreter {
  import opened Results
  import opened Text
  import opened Numbers
  import opened Regex
  import opened Schemes
  import opened Parser
  import opened Format
  import opened Metrics

  /** The two keyword tables as values: keywords2colors and colors2keywords. */
  datatype Tables = Tables(forward: Keywords, reverse: map<string, string>)

  /** The text addKeyword files a colour under: its toHEXA in lower case. A
      string is first parsed, without a context; a value that is neither a
      string nor a Color is refused. */
  function KeywordColor(k: Keywords, color: Operand): (r: Result<string>)
    requires WellFormed(color)
    ensures r.Success? ==> |r.value| == 9 && r.value[0] == '#' && AllLowerHex(r.value[1..])
    ensures r.Failure? <==> color.Other? || (color.Text? && Parse(k, None, color.s).Failure?)
    ensures color.Other? ==> r == Failure(KeywordColorUnresolvable)
  {
    match Operand2Color(k, color)
    case Failure(e) => Failure(e)
    case Success(None) => Failure(KeywordColorUnresolvable)
    case Success(Some((c, _))) =>
      HexaLower(c);
      Success(ToLower(ToHEXA(c)))
  }

  /** toHEXA in lower case is '#' and the eight digits of the colour. */
  lemma HexaLower(c: Rgba)
    requires c.Valid()
    ensures |HexDigitsOf(c)| == 8 && AllLowerHex(HexDigitsOf(c))
    ensures ToLower(ToHEXA(c)) == "#" + HexDigitsOf(c)
  {
    HexaShape(c);
    NormalizeUpperHex(HexDigitsOf(c));
  }

  /** addKeyword as written: both tables are keyed and valued by the
      lower-case toHEXA text, '#' included. A name that is not a string is
      refused before the colour is looked at. */
  function AddedAsWritten(t: Tables, name: Option<string>, color: Operand): Result<Tables>
    requires WellFormed(color)
  {
    if name.None? then Failure(KeywordNameNotString)
    else
      match KeywordColor(t.forward, color)
      case Failure(e) => Failure(e)
      case Success(h) => Success(Tables(t.forward[name.value := Canonical(h)], t.reverse[h := name.value]))
  }

  /** addKeyword as corrected: the reverse table is keyed without the '#',
      as its own entries and toKeyword's lookup are. */
  function Added(t: Tables, name: Option<string>, color: Operand): (r: Result<Tables>)
    requires WellFormed(color)
    ensures r.Failure? <==> name.None? || KeywordColor(t.forward, color).Failure?
    ensures name.None? ==> r == Failure(KeywordNameNotString)
    ensures r.Success? ==> r.value.forward.Keys == t.forward.Keys + {name.value}
    ensures r.Success? ==> r.value.reverse.Keys == t.reverse.Keys + {KeywordColor(t.forward, color).value[1..]}
    ensures r.Success? ==> forall x :: x in t.forward && x != name.value ==> r.value.forward[x] == t.forward[x]
    ensures r.Success? ==> r.value.forward[name.value] == Canonical(KeywordColor(t.forward, color).value)
    ensures r.Success? ==> r.value.reverse[KeywordColor(t.forward, color).value[1..]] == name.value
    ensures r.Success? ==> forall x :: x in t.reverse && x != KeywordColor(t.forward, color).value[1..] ==> r.value.reverse[x] == t.reverse[x]
  {
    if name.None? then Failure(KeywordNameNotString)
    else
      match KeywordColor(t.forward, color)
      case Failure(e) => Failure(e)
      case Success(h) => Success(Tables(t.forward[name.value := Canonical(h)], t.reverse[h[1..] := name.value]))
  }

  /** Every key toKeyword looks up is eight hex digits, never text with a '#'. */
  lemma ReverseKeyShape(c: Rgba)
    requires c.Valid()
    ensures |ReverseKey(c)| == 8 && AllLowerHex(ReverseKey(c))
  {
    if c.a != 0.0 {
      ReverseKeyDigits(c);
      HexaShape(c);
    }
  }

  /** As written, an added keyword is invisible to toKeyword: the entry it
      writes into colors2keywords starts with '#', which no looked-up key
      does, so every colour names the keyword it named before. */
  lemma AddedAsWrittenInvisible(t: Tables, name: Option<string>, color: Operand, d: Rgba)
    requires WellFormed(color) && d.Valid()
    requires AddedAsWritten(t, name, color).Success?
    ensures ToKeyword(d, AddedAsWritten(t, name, color).value.reverse) == ToKeyword(d, t.reverse)
  {
    ReverseKeyShape(d);
    var h := KeywordColor(t.forward, color).value;
    assert ReverseKey(d) != h by {
      assert IsLowerHex(ReverseKey(d)[0]) && h[0] == '#';
    }
  }

  /** The colour a keyword added by addKeyword stands for is the added
      colour with its channels rounded, so its toHEXA is the added colour's
      toHEXA; this holds for the lower-case names, the only ones the
      constructor can look up. */
  lemma AddedHexa(t: Tables, name: string, color: Operand, context: Option<string>)
    requires WellFormed(color)
    requires Normalize(name) == name
    requires Added(t, Some(name), color).Success?
    ensures var c := Operand2Color(t.forward, color).value.value.0;
      var u := Added(t, Some(name), color).value;
      Parse(u.forward, context, name) == Success(Quantize(c)) &&
      ToHEXA(Parse(u.forward, context, name).value) == ToHEXA(c)
  {
    var c := Operand2Color(t.forward, color).value.value.0;
    var u := Added(t, Some(name), color).value;
    var d := HexDigitsOf(c);
    HexaLower(c);
    assert u.forward[name] == Canonical("#" + d);
    FinishHex(d);
    HexRgbaOfDigits(c);
    DigitsOfHexRgba(d);
    HexaShape(c);
    HexaShape(Quantize(c));
  }

  /** With the correction, an opaque (or fully transparent black) keyword is
      named again by toKeyword on the colour it stands for. */
  lemma AddedKeywordFound(t: Tables, name: string, color: Operand, context: Option<string>)
    requires WellFormed(color)
    requires Normalize(name) == name
    requires Added(t, Some(name), color).Success?
    requires var h := KeywordColor(t.forward, color).value; h[7..] == "ff" || h == "#00000000"
    ensures var u := Added(t, Some(name), color).value;
      Parse(u.forward, context, name).Success? &&
      ToKeyword(Parse(u.forward, context, name).value, u.reverse) == name
  {
    var c := Operand2Color(t.forward, color).value.value.0;
    var d := HexDigitsOf(c);
    HexaLower(c);
    AddedHexa(t, name, color, context);
    HexRgbaOfDigits(c);
    var h := KeywordColor(t.forward, color).value;
    assert h == "#" + d && h[1..] == d;
    assert d[6..] == h[7..];
    ReverseKeyOfHex(d);
  }

  /** The keyword tables, which addKeyword updates in place. */
  class KeywordTable {
    var forward: Keywords
    var reverse: map<string, string>

    constructor (forward0: Keywords, reverse0: map<string, string>)
      ensures forward == forward0 && reverse == reverse0
    {
      forward := forward0;
      reverse := reverse0;
    }

    function Contents(): Tables
      reads this
    {
      Tables(forward, reverse)
    }

    /** Color.addKeyword as corrected (see `AddedAsWritten`): the reverse
        entry is keyed by the eight digits without the '#', as toKeyword
        looks it up, where index.js:1101 keeps the '#'. On an error nothing
        changes. */
    method AddKeyword(name: Option<string>, color: Operand) returns (r: Result<()>)
      requires WellFormed(color)
      modifies this
      ensures Added(old(Contents()), name, color).Failure? ==>
        r == Failure(Added(old(Contents()), name, color).error) && Contents() == old(Contents())
      ensures Added(old(Contents()), name, color).Success? ==>
        r == Success(()) && Contents() == Added(old(Contents()), name, color).value
    {
      if name.None? {
        return Failure(KeywordNameNotString);
      }
      var c: Rgba;
      match color {
        case Other =>
          return Failure(KeywordColorUnresolvable);
        case Instance(v, _) =>
          c := v;
        case Text(s) =>
          var parsed := Parse(forward, None, s);
          if parsed.Failure? {
            return Failure(parsed.error);
          }
          c := parsed.value;
      }
      var hexa := ToLower(ToHEXA(c));
      forward := forward[name.value := Canonical(hexa)];
      reverse := reverse[hexa[1..] := name.value];
      r := Success(());
    }
  }

  /** A parsed colour: its channels, the decimals of its percentage and
      HSL forms, and whether it was parsed. */
  class Color {
    var r: real
    var g: real
    var b: real
    var a: real
    var fixed: int
    var valid: bool

    function Value(): Rgba
      reads this
    {
      Rgba(r, g, b, a)
    }

    /** The fields the constructor leaves when it does not throw. */
    constructor (c: Rgba)
      requires c.Valid()
      ensures Value() == c && fixed == DefaultFixed && valid
    {
      r, g, b, a := c.r, c.g, c.b, c.a;
      fixed := DefaultFixed;
      valid := true;
    }

    /** new Color(s, context): normalize, substitute a keyword, expand HEX
        shorthand, then try the schemes from the last to the first; the
        first that matches decides through the range checks. The object is
        returned only when nothing was thrown. */
    static method Create(table: KeywordTable, s: string, context: Option<string>) returns (res: Result<Color>)
      ensures Parse(table.forward, context, s).Failure? ==> res == Failure(Parse(table.forward, context, s).error)
      ensures Parse(table.forward, context, s).Success? ==>
        res.Success? && fresh(res.value) && res.value.Value() == Parse(table.forward, context, s).value &&
        res.value.fixed == DefaultFixed && res.value.valid
    {
      var resolved := Substitute(table, Normalize(s), context);
      if resolved.Failure? {
        return Failure(resolved.error);
      }
      var expanded := Expand(resolved.value);
      if expanded.Failure? {
        return Failure(expanded.error);
      }
      var u := expanded.value;
      var i := |AllSchemes| - 1;
      while i > -1
        invariant -1 <= i < |AllSchemes|
        invariant Scan(u, i) == Interpret(u)
      {
        var bits := Exec(AllSchemes[i].Pattern(), u);
        if bits.Some? {
          var values := AllSchemes[i].Process(bits.value);
          if !InRange(values.r, 255.0) {
            return Failure(RedValue);
          }
          if !InRange(values.g, 255.0) {
            return Failure(GreenValue);
          }
          if !InRange(values.b, 255.0) {
            return Failure(BlueValue);
          }
          if !InRange(values.a, 1.0) {
            return Failure(AlphaValue);
          }
          var c := new Color(Rgba(values.r.val, values.g.val, values.b.val, values.a.val));
          return Success(c);
        }
        i := i - 1;
      }
      return Failure(Unparsable);
    }

    /** The keyword step of the constructor: a keyword is replaced by its
        colour text, currentcolor by the colour of the context. */
    static method Substitute(table: KeywordTable, u: string, context: Option<string>) returns (res: Result<string>)
      ensures res == Resolve(table.forward, context, u)
    {
      var t := u;
      if t in table.forward {
        match table.forward[t] {
          case Canonical(text) =>
            if text != "" {
              t := text;
            }
          case CurrentColor =>
            if context.None? {
              return Failure(CurrentColorWithoutContext);
            }
            t := context.value;
        }
      }
      return Success(t);
    }

    /** The HEX step of the constructor: the digits after '#', cut to eight,
        widened to eight by their length. */
    static method Expand(u: string) returns (res: Result<string>)
      ensures res == ExpandHex(u)
    {
      var t := u;
      if |t| > 0 && t[0] == '#' {
        t := if |t| <= 9 then t[1..] else t[1..9];
        if |t| == 3 {
          t := [t[0], t[0], t[1], t[1], t[2], t[2], 'f', 'f'];
        } else if |t| == 4 {
          t := [t[0], t[0], t[1], t[1], t[2], t[2], t[3], t[3]];
        } else if |t| == 6 {
          t := t + "ff";
        } else if |t| == 8 {
        } else {
          return Failure(HexLength);
        }
      }
      return Success(t);
    }

    /** setFixed: a number sets the decimals to its integer part, anything
        else leaves them as they were. */
    method SetFixed(n: Num)
      modifies this
      ensures n.Num? ==> fixed == Truncate(n.val)
      ensures n.NaN? ==> fixed == old(fixed)
      ensures Value() == old(Value()) && valid == old(valid)
    {
      if n.Num? {
        fixed := Truncate(n.val);
      }
    }

    /** isValid: the valid field, true on every object Create returns. */
    function IsValid(): bool
      reads this
    {
      valid
    }
  }

  /** setFixed of a whole number sets exactly that number of decimals, and a
      fractional one drops its fraction (toward zero). */
  lemma TruncateWhole(n: int, x: real)
    ensures Truncate(n as real) == n
    ensures 0.0 <= x ==> Truncate(x) == x.Floor
    ensures x < 0.0 ==> Truncate(x) == -Truncate(-x)
  {
  }
}
