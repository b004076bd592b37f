/** What the RGB(A) and HSL(A) patterns capture on concrete shapes of text.
    The first match of each piece of a pattern is followed through the
    pattern, so that the captures exec reports are known. */
module SchemeTexts {
  import opened Results
  import opened Text
  import opened Numbers
  import opened Regex
  import opened Schemes

  /** s[i..j] is a non-empty run of digits that ends at j. */
  predicate DigitsTo(s: string, i: nat, j: nat) {
    RunsTo(s, i, j, Digit) && i < j
  }

  /** An optional fraction, a character of seps followed by digits, runs
      from e and ends at f (f == e when there is none). */
  predicate FractionTo(s: string, e: nat, f: nat, seps: string) {
    e <= f <= |s| &&
    if e + 1 < |s| && s[e] in seps && IsDigit(s[e + 1]) then DigitsTo(s, e + 1, f) else f == e
  }

  /** The digits d stand at position i of s and end a run there. */
  lemma DigitsAt(s: string, i: nat, d: string)
    requires d != [] && AllDigits(d)
    requires i + |d| <= |s| && s[i..i + |d|] == d
    requires i + |d| == |s| || !IsDigit(s[i + |d|])
    ensures DigitsTo(s, i, i + |d|)
  {
    assert forall m :: i <= m < i + |d| ==> s[m] == d[m - i];
  }

  /** (?:[seps]\d+)? takes the fraction when there is one. */
  lemma FractionHead(seps: string, s: string, e: nat, f: nat, caps: Captures)
    requires FractionTo(s, e, f, seps)
    ensures HeadIs(Opt(Cat(Class(OneOf(seps)), Digits)), s, e, caps, Thread(f, caps))
  {
    var a := Cat(Class(OneOf(seps)), Digits);
    if e + 1 < |s| && s[e] in seps && IsDigit(s[e + 1]) {
      ClassHead(OneOf(seps), s, e, caps);
      PlusHead(Digit, s, e + 1, f, caps);
      CatHead(Class(OneOf(seps)), Digits, s, e, caps, Thread(e + 1, caps), Thread(f, caps));
      OptSome(a, s, e, caps, Thread(f, caps));
    } else {
      if e < |s| && s[e] in seps {
        PlusMiss(Digit, s, e + 1, caps);
        CatSingle(Class(OneOf(seps)), Digits, s, e, caps, Thread(e + 1, caps));
      } else {
        ClassMiss(OneOf(seps), s, e, caps);
        CatFails(Class(OneOf(seps)), Digits, s, e, caps);
      }
      OptNone(a, s, e, caps);
    }
  }

  /** (?:\.\d+)? takes the fraction when there is one. */
  lemma DotFractionHead(s: string, e: nat, f: nat, caps: Captures)
    requires FractionTo(s, e, f, ".")
    ensures HeadIs(DotFraction, s, e, caps, Thread(f, caps))
  {
    var a := Cat(Lit("."), Digits);
    if e + 1 < |s| && s[e] == '.' && IsDigit(s[e + 1]) {
      LitHead(".", s, e, caps);
      PlusHead(Digit, s, e + 1, f, caps);
      CatHead(Lit("."), Digits, s, e, caps, Thread(e + 1, caps), Thread(f, caps));
      OptSome(a, s, e, caps, Thread(f, caps));
    } else {
      if e < |s| && s[e] == '.' {
        LitHead(".", s, e, caps);
        PlusMiss(Digit, s, e + 1, caps);
        CatSingle(Lit("."), Digits, s, e, caps, Thread(e + 1, caps));
      } else {
        LitMiss(".", s, e, caps);
        CatFails(Lit("."), Digits, s, e, caps);
      }
      OptNone(a, s, e, caps);
    }
  }

  /** A separator between two fields: white space, sep, white space. */
  lemma SepHead(sep: Re, next: Re, s: string, i: nat, j0: nat, j1: nat, j2: nat, caps: Captures, u: Thread)
    requires RunsTo(s, i, j0, Space)
    requires HeadIs(sep, s, j0, caps, Thread(j1, caps))
    requires RunsTo(s, j1, j2, Space)
    requires HeadIs(next, s, j2, caps, u)
    ensures HeadIs(Sep(sep, next), s, i, caps, u)
  {
    StarHead(Space, s, j1, j2, caps);
    CatHead(Ws, next, s, j1, caps, Thread(j2, caps), u);
    CatHead(sep, Cat(Ws, next), s, j0, caps, Thread(j1, caps), u);
    StarHead(Space, s, i, j0, caps);
    CatHead(Ws, Cat(sep, Cat(Ws, next)), s, i, caps, Thread(j0, caps), u);
  }

  /** ,? takes a comma when there is one. */
  lemma CommaHead(s: string, i: nat, caps: Captures)
    requires i <= |s|
    ensures HeadIs(Comma, s, i, caps, Thread(if i < |s| && s[i] == ',' then i + 1 else i, caps))
  {
    if i < |s| && s[i] == ',' {
      LitHead(",", s, i, caps);
      OptSome(Lit(","), s, i, caps, Thread(i + 1, caps));
    } else {
      LitMiss(",", s, i, caps);
      OptNone(Lit(","), s, i, caps);
    }
  }

  /** [,|/]? takes one of those characters when there is one. */
  lemma AlphaSeparatorHead(s: string, i: nat, caps: Captures)
    requires i <= |s|
    ensures HeadIs(AlphaSeparator, s, i, caps, Thread(if i < |s| && s[i] in ",|/" then i + 1 else i, caps))
  {
    if i < |s| && s[i] in ",|/" {
      ClassHead(OneOf(",|/"), s, i, caps);
      OptSome(Class(OneOf(",|/")), s, i, caps, Thread(i + 1, caps));
    } else {
      ClassMiss(OneOf(",|/"), s, i, caps);
      OptNone(Class(OneOf(",|/")), s, i, caps);
    }
  }

  /** \s*\) */
  lemma ClosingParenHead(s: string, i: nat, j: nat, caps: Captures)
    requires RunsTo(s, i, j, Space) && j < |s| && s[j] == ')'
    ensures HeadIs(ClosingParen, s, i, caps, Thread(j + 1, caps))
  {
    StarHead(Space, s, i, j, caps);
    LitHead(")", s, j, caps);
    CatHead(Ws, Lit(")"), s, i, caps, Thread(j, caps), Thread(j + 1, caps));
  }

  /** The alpha group: digits, an optional fraction after '/' or '.', and
      an optional percent sign; the whole in group v, the sign in v + 1. */
  lemma AlphaPartHead(v: nat, s: string, i: nat, e: nat, f: nat, caps: Captures)
    requires DigitsTo(s, i, e) && FractionTo(s, e, f, "/.")
    ensures var g := if f < |s| && s[f] == '%' then f + 1 else f;
      HeadIs(AlphaPart(v), s, i, caps, Thread(g, caps[v + 1 := s[f..g]][v := s[i..g]]))
  {
    var g := if f < |s| && s[f] == '%' then f + 1 else f;
    PlusHead(Digit, s, i, e, caps);
    FractionHead("/.", s, e, f, caps);
    if f < |s| && s[f] == '%' {
      LitHead("%", s, f, caps);
      OptSome(Lit("%"), s, f, caps, Thread(g, caps));
    } else {
      LitMiss("%", s, f, caps);
      OptNone(Lit("%"), s, f, caps);
    }
    var sign := Group(v + 1, Opt(Lit("%")));
    GroupHead(v + 1, Opt(Lit("%")), s, f, caps, Thread(g, caps));
    var c1 := caps[v + 1 := s[f..g]];
    CatHead(SlashOrDotFraction, sign, s, e, caps, Thread(f, caps), Thread(g, c1));
    CatHead(Digits, Cat(SlashOrDotFraction, sign), s, i, caps, Thread(e, caps), Thread(g, c1));
    GroupHead(v, Cat(Digits, Cat(SlashOrDotFraction, sign)), s, i, caps, Thread(g, c1));
    OptSome(Group(v, Cat(Digits, Cat(SlashOrDotFraction, sign))), s, i, caps, Thread(g, c1[v := s[i..g]]));
  }

  /** Without a digit there is no alpha group. */
  lemma AlphaPartAbsent(v: nat, s: string, i: nat, caps: Captures)
    requires i <= |s| && (i == |s| || !IsDigit(s[i]))
    ensures HeadIs(AlphaPart(v), s, i, caps, Thread(i, caps))
  {
    var body := Cat(Digits, Cat(SlashOrDotFraction, Group(v + 1, Opt(Lit("%")))));
    PlusMiss(Digit, s, i, caps);
    CatFails(Digits, Cat(SlashOrDotFraction, Group(v + 1, Opt(Lit("%")))), s, i, caps);
    GroupMiss(v, body, s, i, caps);
    OptNone(Group(v, body), s, i, caps);
  }

  /** The end of a functional pattern without an alpha: white space and ")". */
  lemma NoAlphaHead(v: nat, s: string, i: nat, j: nat, caps: Captures)
    requires RunsTo(s, i, j, Space) && j < |s| && s[j] == ')'
    ensures HeadIs(AlphaTail(v), s, i, caps, Thread(j + 1, caps))
  {
    AlphaSeparatorHead(s, j, caps);
    AlphaPartAbsent(v, s, j, caps);
    ClosingParenHead(s, j, j, caps);
    CatHead(AlphaPart(v), ClosingParen, s, j, caps, Thread(j, caps), Thread(j + 1, caps));
    SepHead(AlphaSeparator, Cat(AlphaPart(v), ClosingParen), s, i, j, j, j, caps, Thread(j + 1, caps));
  }

  /** The end of a functional pattern with an alpha: white space, an
      optional separator j0 (j1 after it), white space, the alpha x from j2
      (its digits to e, its fraction to f, its sign y to g), white space
      and ")" at k. */
  lemma AlphaHead(v: nat, sign: nat, s: string, i: nat, j0: nat, j1: nat, j2: nat, e: nat, f: nat, g: nat, k: nat, caps: Captures, x: string, y: string)
    requires sign == v + 1
    requires RunsTo(s, i, j0, Space) && j0 < |s|
    requires j1 == if s[j0] in ",|/" then j0 + 1 else j0
    requires RunsTo(s, j1, j2, Space)
    requires DigitsTo(s, j2, e) && FractionTo(s, e, f, "/.")
    requires g == if f < |s| && s[f] == '%' then f + 1 else f
    requires RunsTo(s, g, k, Space) && k < |s| && s[k] == ')'
    requires x == s[j2..g] && y == s[f..g]
    ensures HeadIs(AlphaTail(v), s, i, caps, Thread(k + 1, caps[sign := y][v := x]))
  {
    var c := caps[sign := y][v := x];
    AlphaSeparatorHead(s, j0, caps);
    AlphaPartHead(v, s, j2, e, f, caps);
    ClosingParenHead(s, g, k, c);
    CatHead(AlphaPart(v), ClosingParen, s, j2, caps, Thread(g, c), Thread(k + 1, c));
    SepHead(AlphaSeparator, Cat(AlphaPart(v), ClosingParen), s, i, j0, j1, j2, caps, Thread(k + 1, c));
  }

  /** The percentage alternative of an RGB(A) channel cannot continue at m
      when s[m] is neither '.' nor '%'. */
  lemma PercentTailMiss(n: nat, s: string, m: nat, caps: Captures)
    requires m <= |s| && (m == |s| || (s[m] != '.' && s[m] != '%'))
    ensures Match(Cat(DotFraction, Group(n + 1, Lit("%"))), s, m, caps) == []
  {
    LitMiss(".", s, m, caps);
    CatFails(Lit("."), Digits, s, m, caps);
    assert Match(DotFraction, s, m, caps) == [Thread(m, caps)];
    CatSingle(DotFraction, Group(n + 1, Lit("%")), s, m, caps, Thread(m, caps));
    LitMiss("%", s, m, caps);
    GroupMiss(n + 1, Lit("%"), s, m, caps);
  }

  /** An integer RGB(A) channel: the digits from i to e, captured in group
      n + 2, when no '.' or '%' follows them. */
  lemma RgbIntegerHead(n: nat, s: string, i: nat, e: nat, caps: Captures)
    requires DigitsTo(s, i, e) && (e == |s| || (s[e] != '%' && s[e] != '.'))
    ensures HeadIs(RgbChannel(n), s, i, caps, Thread(e, caps[n + 2 := s[i..e]]))
  {
    var tail := Cat(DotFraction, Group(n + 1, Lit("%")));
    RunEnds(s, i, e, Digit);
    var ts := Match(Digits, s, i, caps);
    assert ts == Backoff(e, i + 1, caps);
    forall k | 0 <= k < |ts|
      ensures Match(tail, s, ts[k].end, ts[k].caps) == []
    {
      assert ts[k] == Thread(e - k, caps);
      PercentTailMiss(n, s, e - k, caps);
    }
    ThenMiss(tail, s, ts);
    GroupMiss(n, Cat(Digits, tail), s, i, caps);
    PlusHead(Digit, s, i, e, caps);
    GroupHead(n + 2, Digits, s, i, caps, Thread(e, caps));
    AltRight(Group(n, Cat(Digits, tail)), Group(n + 2, Digits), s, i, caps, Thread(e, caps[n + 2 := s[i..e]]));
  }

  /** A percentage RGB(A) channel: digits to e, an optional fraction to f
      and '%' at f; the whole in group n, the sign in n + 1. */
  lemma RgbPercentHead(n: nat, s: string, i: nat, e: nat, f: nat, caps: Captures)
    requires DigitsTo(s, i, e) && FractionTo(s, e, f, ".") && f < |s| && s[f] == '%'
    ensures HeadIs(RgbChannel(n), s, i, caps, Thread(f + 1, caps[n + 1 := "%"][n := s[i..f + 1]]))
  {
    var c1 := caps[n + 1 := "%"];
    PlusHead(Digit, s, i, e, caps);
    DotFractionHead(s, e, f, caps);
    LitHead("%", s, f, caps);
    GroupHead(n + 1, Lit("%"), s, f, caps, Thread(f + 1, caps));
    assert s[f..f + 1] == "%";
    CatHead(DotFraction, Group(n + 1, Lit("%")), s, e, caps, Thread(f, caps), Thread(f + 1, c1));
    CatHead(Digits, Cat(DotFraction, Group(n + 1, Lit("%"))), s, i, caps, Thread(e, caps), Thread(f + 1, c1));
    GroupHead(n, Cat(Digits, Cat(DotFraction, Group(n + 1, Lit("%")))), s, i, caps, Thread(f + 1, c1));
    AltLeft(Group(n, Cat(Digits, Cat(DotFraction, Group(n + 1, Lit("%"))))), Group(n + 2, Digits), s, i, caps,
            Thread(f + 1, c1[n := s[i..f + 1]]));
  }

  /** The hue: an optional sign at i, digits from i1 to e and an optional
      fraction after '/' or '.' to f, all captured in group 1. */
  lemma HueHead(s: string, i: nat, i1: nat, e: nat, f: nat, caps: Captures)
    requires i1 == if i < |s| && s[i] in "-|+" then i + 1 else i
    requires DigitsTo(s, i1, e) && FractionTo(s, e, f, "/.")
    ensures HeadIs(HueGroup, s, i, caps, Thread(f, caps[1 := s[i..f]]))
  {
    var sign := Opt(Class(OneOf("-|+")));
    if i < |s| && s[i] in "-|+" {
      ClassHead(OneOf("-|+"), s, i, caps);
      OptSome(Class(OneOf("-|+")), s, i, caps, Thread(i + 1, caps));
    } else {
      ClassMiss(OneOf("-|+"), s, i, caps);
      OptNone(Class(OneOf("-|+")), s, i, caps);
    }
    PlusHead(Digit, s, i1, e, caps);
    FractionHead("/.", s, e, f, caps);
    CatHead(Digits, SlashOrDotFraction, s, i1, caps, Thread(e, caps), Thread(f, caps));
    CatHead(sign, Cat(Digits, SlashOrDotFraction), s, i, caps, Thread(i1, caps), Thread(f, caps));
    GroupHead(1, Cat(sign, Cat(Digits, SlashOrDotFraction)), s, i, caps, Thread(f, caps));
  }

  /** A hue unit w at i is captured in group 2. */
  lemma UnitHead(s: string, i: nat, w: string, caps: Captures)
    requires w == "deg" || w == "rad" || w == "grad" || w == "turn"
    requires i + |w| <= |s| && s[i..i + |w|] == w
    ensures HeadIs(Opt(Group(2, HueUnit)), s, i, caps, Thread(i + |w|, caps[2 := w]))
  {
    var t := Thread(i + |w|, caps);
    assert s[i] == w[0];
    if w == "deg" {
      LitHead("deg", s, i, caps);
      AltLeft(Lit("deg"), Alt(Lit("rad"), Alt(Lit("grad"), Lit("turn"))), s, i, caps, t);
    } else {
      LitMiss("deg", s, i, caps);
      if w == "rad" {
        LitHead("rad", s, i, caps);
        AltLeft(Lit("rad"), Alt(Lit("grad"), Lit("turn")), s, i, caps, t);
      } else {
        LitMiss("rad", s, i, caps);
        if w == "grad" {
          LitHead("grad", s, i, caps);
          AltLeft(Lit("grad"), Lit("turn"), s, i, caps, t);
        } else {
          LitMiss("grad", s, i, caps);
          LitHead("turn", s, i, caps);
          AltRight(Lit("grad"), Lit("turn"), s, i, caps, t);
        }
        AltRight(Lit("rad"), Alt(Lit("grad"), Lit("turn")), s, i, caps, t);
      }
      AltRight(Lit("deg"), Alt(Lit("rad"), Alt(Lit("grad"), Lit("turn"))), s, i, caps, t);
    }
    GroupHead(2, HueUnit, s, i, caps, t);
    OptSome(Group(2, HueUnit), s, i, caps, Thread(i + |w|, caps[2 := w]));
  }

  /** No hue unit starts with a character other than d, r, g or t. */
  lemma NoUnitHead(s: string, i: nat, caps: Captures)
    requires i < |s| && s[i] !in "drgt"
    ensures HeadIs(Opt(Group(2, HueUnit)), s, i, caps, Thread(i, caps))
  {
    LitFirstMiss("deg", s, i, caps);
    LitFirstMiss("rad", s, i, caps);
    LitFirstMiss("grad", s, i, caps);
    LitFirstMiss("turn", s, i, caps);
    GroupMiss(2, HueUnit, s, i, caps);
    OptNone(Group(2, HueUnit), s, i, caps);
  }

  /** A saturation or lightness number: digits to e and an optional
      fraction after '.' to f, captured in group n. */
  lemma PercentGroupHead(n: nat, s: string, i: nat, e: nat, f: nat, caps: Captures)
    requires DigitsTo(s, i, e) && FractionTo(s, e, f, ".")
    ensures HeadIs(PercentGroup(n), s, i, caps, Thread(f, caps[n := s[i..f]]))
  {
    PlusHead(Digit, s, i, e, caps);
    DotFractionHead(s, e, f, caps);
    CatHead(Digits, DotFraction, s, i, caps, Thread(e, caps), Thread(f, caps));
    GroupHead(n, Cat(Digits, DotFraction), s, i, caps, Thread(f, caps));
  }

  /** An optional "a" at n; p is where the text goes on. */
  lemma OptionalAHead(s: string, n: nat, p: nat, caps: Captures)
    requires n < |s| && p == (if s[n] == 'a' then n + 1 else n)
    ensures HeadIs(Opt(Lit("a")), s, n, caps, Thread(p, caps))
  {
    if s[n] == 'a' {
      LitHead("a", s, n, caps);
      OptSome(Lit("a"), s, n, caps, Thread(p, caps));
    } else {
      LitMiss("a", s, n, caps);
      OptNone(Lit("a"), s, n, caps);
    }
  }

  /** "(" at p, white space up to j, then body. */
  lemma OpenParenHead(body: Re, s: string, p: nat, j: nat, caps: Captures, u: Thread)
    requires p < |s| && s[p] == '(' && RunsTo(s, p + 1, j, Space)
    requires HeadIs(body, s, j, caps, u)
    ensures HeadIs(Cat(Lit("("), Cat(Ws, body)), s, p, caps, u)
  {
    StarHead(Space, s, p + 1, j, caps);
    CatHead(Ws, body, s, p + 1, caps, Thread(j, caps), u);
    LitHead("(", s, p, caps);
    CatHead(Lit("("), Cat(Ws, body), s, p, caps, Thread(p + 1, caps), u);
  }

  /** The opening of a functional pattern after its name at n: an optional
      "a" (p is where "(" stands), "(" and white space up to j. */
  lemma FunctionalTailHead(body: Re, s: string, n: nat, p: nat, j: nat, caps: Captures, u: Thread)
    requires n < |s| && p == (if s[n] == 'a' then n + 1 else n)
    requires p < |s| && s[p] == '('
    requires RunsTo(s, p + 1, j, Space)
    requires HeadIs(body, s, j, caps, u)
    ensures HeadIs(FunctionalTail(body), s, n, caps, u)
  {
    OptionalAHead(s, n, p, caps);
    OpenParenHead(body, s, p, j, caps, u);
    CatHead(Opt(Lit("a")), Cat(Lit("("), Cat(Ws, body)), s, n, caps, Thread(p, caps), u);
  }

  /** A functional pattern: its name, then the rest from |name|. */
  lemma FunctionalHead(name: string, body: Re, s: string, p: nat, j: nat, caps: Captures, u: Thread)
    requires |name| < |s| && s[..|name|] == name
    requires p == if s[|name|] == 'a' then |name| + 1 else |name|
    requires p < |s| && s[p] == '('
    requires RunsTo(s, p + 1, j, Space)
    requires HeadIs(body, s, j, caps, u)
    ensures HeadIs(Functional(name, body), s, 0, caps, u)
  {
    FunctionalTailHead(body, s, |name|, p, j, caps, u);
    assert s[0..|name|] == name;
    LitHead(name, s, 0, caps);
    CatHead(Lit(name), FunctionalTail(body), s, 0, caps, Thread(|name|, caps), u);
  }

  /** The comma separators the functional forms are written with. */
  predicate CommaSep(sep: string) {
    sep == "," || sep == ", "
  }

  /** A non-empty run of decimal digits. */
  predicate Numeral(d: string) {
    d != [] && AllDigits(d)
  }

  /** A comma at e, optionally followed by one space, and the next field at b. */
  predicate CommaBetween(s: string, e: nat, b: nat) {
    e < b < |s| && s[e] == ',' && !IsSpace(s[b]) && (b == e + 1 || (b == e + 2 && s[e + 1] == ' '))
  }

  lemma CommaSepHead(next: Re, s: string, e: nat, b: nat, caps: Captures, u: Thread)
    requires CommaBetween(s, e, b) && HeadIs(next, s, b, caps, u)
    ensures HeadIs(Sep(Comma, next), s, e, caps, u)
  {
    CommaHead(s, e, caps);
    SepHead(Comma, next, s, e, e, e + 1, b, caps, u);
  }

  /** An integer channel from i to e, captured in group n + 2, then next. */
  lemma IntegerFieldHead(n: nat, group: nat, next: Re, s: string, i: nat, e: nat, caps: Captures, u: Thread)
    requires group == n + 2
    requires DigitsTo(s, i, e) && e < |s| && s[e] != '%' && s[e] != '.'
    requires HeadIs(next, s, e, caps[group := s[i..e]], u)
    ensures HeadIs(Cat(RgbChannel(n), next), s, i, caps, u)
  {
    RgbIntegerHead(n, s, i, e, caps);
    CatHead(RgbChannel(n), next, s, i, caps, Thread(e, caps[n + 2 := s[i..e]]), u);
  }

  /** A whole-number percentage channel from i to e with its '%' at e:
      the whole in group n, the sign in n + 1, then next. */
  lemma PercentChannelFieldHead(n: nat, sign: nat, next: Re, s: string, i: nat, e: nat, caps: Captures, u: Thread)
    requires sign == n + 1
    requires DigitsTo(s, i, e) && e < |s| && s[e] == '%'
    requires HeadIs(next, s, e + 1, caps[sign := "%"][n := s[i..e + 1]], u)
    ensures HeadIs(Cat(RgbChannel(n), next), s, i, caps, u)
  {
    RgbPercentHead(n, s, i, e, e, caps);
    CatHead(RgbChannel(n), next, s, i, caps, Thread(e + 1, caps[n + 1 := "%"][n := s[i..e + 1]]), u);
  }

  /** Three integer channels from a to e1, b to e2 and c to e3, separated
      by commas, then the alpha tail. */
  lemma IntegerChannelsHead(s: string, a: nat, e1: nat, b: nat, e2: nat, c: nat, e3: nat, last: Thread)
    requires DigitsTo(s, a, e1) && CommaBetween(s, e1, b)
    requires DigitsTo(s, b, e2) && CommaBetween(s, e2, c)
    requires DigitsTo(s, c, e3) && e3 < |s| && s[e3] != '%' && s[e3] != '.'
    requires HeadIs(AlphaTail(10), s, e3, map[3 := s[a..e1], 6 := s[b..e2], 9 := s[c..e3]], last)
    ensures HeadIs(RgbBody, s, a, map[], last)
  {
    var c0: Captures := map[];
    var c1 := c0[3 := s[a..e1]];
    var c2 := c1[6 := s[b..e2]];
    var x7 := Cat(RgbChannel(7), AlphaTail(10));
    var x4 := Cat(RgbChannel(4), Sep(Comma, x7));
    IntegerFieldHead(7, 9, AlphaTail(10), s, c, e3, c2, last);
    CommaSepHead(x7, s, e2, c, c2, last);
    IntegerFieldHead(4, 6, Sep(Comma, x7), s, b, e2, c1, last);
    CommaSepHead(x4, s, e1, b, c1, last);
    IntegerFieldHead(1, 3, Sep(Comma, x4), s, a, e1, c0, last);
  }

  /** The captures of three percentage channels x1, x2 and x3 (signs included). */
  function PercentCaptures(x1: string, x2: string, x3: string): Captures {
    map[][2 := "%"][1 := x1][5 := "%"][4 := x2][8 := "%"][7 := x3]
  }

  /** Three whole-number percentage channels, each with its '%' at e1, e2
      and e3, separated by commas, then the alpha tail. */
  lemma PercentChannelsHead(s: string, a: nat, e1: nat, b: nat, e2: nat, c: nat, e3: nat, last: Thread)
    requires DigitsTo(s, a, e1) && e1 < |s| && s[e1] == '%' && CommaBetween(s, e1 + 1, b)
    requires DigitsTo(s, b, e2) && e2 < |s| && s[e2] == '%' && CommaBetween(s, e2 + 1, c)
    requires DigitsTo(s, c, e3) && e3 < |s| && s[e3] == '%'
    requires HeadIs(AlphaTail(10), s, e3 + 1, PercentCaptures(s[a..e1 + 1], s[b..e2 + 1], s[c..e3 + 1]), last)
    ensures HeadIs(RgbBody, s, a, map[], last)
  {
    var c0: Captures := map[];
    var c1 := c0[2 := "%"][1 := s[a..e1 + 1]];
    var c2 := c1[5 := "%"][4 := s[b..e2 + 1]];
    var x7 := Cat(RgbChannel(7), AlphaTail(10));
    var x4 := Cat(RgbChannel(4), Sep(Comma, x7));
    PercentSepFieldHead(7, 8, AlphaTail(10), s, e2 + 1, c, e3, c2, last);
    PercentSepFieldHead(4, 5, Sep(Comma, x7), s, e1 + 1, b, e2, c1, last);
    PercentChannelFieldHead(1, 2, Sep(Comma, x4), s, a, e1, c0, last);
  }

  /** A comma separator from e to i, then a whole-number percentage channel
      from i to f with its '%' at f, then next. */
  lemma PercentSepFieldHead(n: nat, sign: nat, next: Re, s: string, e: nat, i: nat, f: nat, caps: Captures, u: Thread)
    requires sign == n + 1
    requires CommaBetween(s, e, i) && DigitsTo(s, i, f) && f < |s| && s[f] == '%'
    requires HeadIs(next, s, f + 1, caps[sign := "%"][n := s[i..f + 1]], u)
    ensures HeadIs(Sep(Comma, Cat(RgbChannel(n), next)), s, e, caps, u)
  {
    PercentChannelFieldHead(n, sign, next, s, i, f, caps, u);
    CommaSepHead(Cat(RgbChannel(n), next), s, e, i, caps, u);
  }

  /** Integer channels from 4 to e1, b to e2 and c to e3, separated by
      commas, after "rgb(" and before the closing ")". */
  lemma RgbIntegersHead(s: string, e1: nat, b: nat, e2: nat, c: nat, e3: nat)
    requires DigitsTo(s, 4, e1) && CommaBetween(s, e1, b)
    requires |s| == e3 + 1 && s[..3] == "rgb" && s[3] == '(' && s[e3] == ')'
    requires DigitsTo(s, b, e2) && CommaBetween(s, e2, c)
    requires DigitsTo(s, c, e3)
    ensures Exec(RgbPattern, s) == Some(map[3 := s[4..e1], 6 := s[b..e2], 9 := s[c..e3]])
  {
    var c3 := map[3 := s[4..e1], 6 := s[b..e2], 9 := s[c..e3]];
    var last := Thread(e3 + 1, c3);
    NoAlphaHead(10, s, e3, e3, c3);
    IntegerChannelsHead(s, 4, e1, b, e2, c, e3, last);
    FunctionalHead("rgb", RgbBody, s, 3, 4, map[], last);
    ExecHead(RgbPattern, s, last);
  }

  /** A comma separator written at e, before a field that does not start
      with white space. */
  lemma SepAt(s: string, e: nat, sep: string)
    requires CommaSep(sep) && e + |sep| < |s| && s[e..e + |sep|] == sep && !IsSpace(s[e + |sep|])
    ensures CommaBetween(s, e, e + |sep|)
  {
    assert s[e] == sep[0];
    if |sep| == 2 {
      assert s[e + 1] == sep[1];
    }
  }

  /** rgb(d1 sep d2 sep d3): the text ToRGB writes (sep a bare comma) and the
      test texts are written with. */
  function RgbText(d1: string, d2: string, d3: string, sep: string): string {
    "rgb(" + d1 + sep + d2 + sep + d3 + ")"
  }

  lemma RgbTextOpen(d1: string, d2: string, d3: string, sep: string)
    ensures var s := RgbText(d1, d2, d3, sep);
      |s| == 4 + |d1| + |sep| + |d2| + |sep| + |d3| + 1 && s[..3] == "rgb" && s[3] == '(' && s[|s| - 1] == ')'
  {
  }

  lemma RgbTextFirst(d1: string, d2: string, d3: string, sep: string)
    ensures var s := RgbText(d1, d2, d3, sep);
      var e1 := 4 + |d1|;
      e1 + |sep| <= |s| && s[4..e1] == d1 && s[e1..e1 + |sep|] == sep
  {
    var s := RgbText(d1, d2, d3, sep);
    var x1 := "rgb(" + d1;
    var x2 := x1 + sep;
    var x3 := x2 + d2;
    var x4 := x3 + sep;
    var x5 := x4 + d3;
    assert s == x5 + ")";
    var e1 := 4 + |d1|;
    Last("rgb(", d1);
    Within(x1, sep, 4, e1);
    Within(x2, d2, 4, e1);
    Within(x3, sep, 4, e1);
    Within(x4, d3, 4, e1);
    Within(x5, ")", 4, e1);
    Last(x1, sep);
    Within(x2, d2, e1, e1 + |sep|);
    Within(x3, sep, e1, e1 + |sep|);
    Within(x4, d3, e1, e1 + |sep|);
    Within(x5, ")", e1, e1 + |sep|);
  }

  lemma RgbTextSecond(d1: string, d2: string, d3: string, sep: string)
    ensures var s := RgbText(d1, d2, d3, sep);
      var b := 4 + |d1| + |sep|;
      var e2 := b + |d2|;
      e2 + |sep| <= |s| && s[b..e2] == d2 && s[e2..e2 + |sep|] == sep
  {
    var s := RgbText(d1, d2, d3, sep);
    var x2 := "rgb(" + d1 + sep;
    var x3 := x2 + d2;
    var x4 := x3 + sep;
    var x5 := x4 + d3;
    assert s == x5 + ")";
    var b := 4 + |d1| + |sep|;
    var e2 := b + |d2|;
    Last(x2, d2);
    Within(x3, sep, b, e2);
    Within(x4, d3, b, e2);
    Within(x5, ")", b, e2);
    Last(x3, sep);
    Within(x4, d3, e2, e2 + |sep|);
    Within(x5, ")", e2, e2 + |sep|);
  }

  lemma RgbTextThird(d1: string, d2: string, d3: string, sep: string)
    ensures var s := RgbText(d1, d2, d3, sep);
      var c := 4 + |d1| + |sep| + |d2| + |sep|;
      c + |d3| <= |s| && s[c..c + |d3|] == d3
  {
    var x4 := "rgb(" + d1 + sep + d2 + sep;
    Last(x4, d3);
    Within(x4 + d3, ")", |x4|, |x4| + |d3|);
  }

  /** The fields of an RGB(A) text with integer channels and no alpha, at
      the positions the pieces' lengths give. */
  lemma RgbFields(s: string, d1: string, d2: string, d3: string, sep: string)
    requires Numeral(d1) && Numeral(d2) && Numeral(d3) && CommaSep(sep)
    requires var e1 := 4 + |d1|;
      var b := e1 + |sep|;
      var e2 := b + |d2|;
      var c := e2 + |sep|;
      |s| == c + |d3| + 1 && s[..3] == "rgb" && s[3] == '(' && s[|s| - 1] == ')' &&
      s[4..e1] == d1 && s[e1..b] == sep && s[b..e2] == d2 && s[e2..c] == sep && s[c..c + |d3|] == d3
    ensures Exec(RgbPattern, s) == Some(map[3 := d1, 6 := d2, 9 := d3])
  {
    var e1 := 4 + |d1|;
    var b := e1 + |sep|;
    var e2 := b + |d2|;
    var c := e2 + |sep|;
    assert s[e1] == sep[0] && s[e2] == sep[0];
    DigitsAt(s, 4, d1);
    DigitsAt(s, b, d2);
    DigitsAt(s, c, d3);
    SepAt(s, e1, sep);
    SepAt(s, e2, sep);
    RgbIntegersHead(s, e1, b, e2, c, c + |d3|);
  }

  /** rgb(d1,d2,d3) with integer channels: exec captures the three numerals
      as the integer groups 3, 6 and 9 and nothing else. */
  lemma RgbIntegersExec(d1: string, d2: string, d3: string, sep: string)
    requires Numeral(d1) && Numeral(d2) && Numeral(d3) && CommaSep(sep)
    ensures Exec(RgbPattern, RgbText(d1, d2, d3, sep)) == Some(map[3 := d1, 6 := d2, 9 := d3])
  {
    RgbTextOpen(d1, d2, d3, sep);
    RgbTextFirst(d1, d2, d3, sep);
    RgbTextSecond(d1, d2, d3, sep);
    RgbTextThird(d1, d2, d3, sep);
    RgbFields(RgbText(d1, d2, d3, sep), d1, d2, d3, sep);
  }

  /** The hue units the HSL(A) pattern accepts, or none. */
  predicate HueUnitText(u: string) {
    u == "" || u == "deg" || u == "rad" || u == "grad" || u == "turn"
  }

  /** The optional fraction of a hue or an alpha: '/' or '.' followed by digits. */
  predicate Fraction(hf: string) {
    hf == [] || (|hf| >= 2 && hf[0] in "/." && Numeral(hf[1..]))
  }

  /** The captures of an HSL(A) match without alpha: the hue, its unit when
      there is one, saturation and lightness. */
  function HslCaptures(h: string, u: string, sd: string, ld: string): Captures {
    var c: Captures := map[1 := h];
    (if u == "" then c else c[2 := u])[3 := sd][4 := ld]
  }

  /** The hue unit from f to g, or none. */
  lemma HueUnitHead(s: string, f: nat, g: nat, caps: Captures)
    requires f <= g < |s| && HueUnitText(s[f..g]) && s[g] == ','
    ensures HeadIs(Opt(Group(2, HueUnit)), s, f, caps, Thread(g, if f == g then caps else caps[2 := s[f..g]]))
  {
    if f == g {
      NoUnitHead(s, f, caps);
    } else {
      UnitHead(s, f, s[f..g], caps);
    }
  }

  /** A whole-number percentage from i to e, captured in group n, its '%'
      at e, then next. */
  lemma PercentFieldHead(n: nat, next: Re, s: string, i: nat, e: nat, caps: Captures, u: Thread)
    requires DigitsTo(s, i, e) && e < |s| && s[e] == '%'
    requires HeadIs(next, s, e + 1, caps[n := s[i..e]], u)
    ensures HeadIs(Cat(PercentGroup(n), Cat(Lit("%"), next)), s, i, caps, u)
  {
    var c := caps[n := s[i..e]];
    LitHead("%", s, e, c);
    CatHead(Lit("%"), next, s, e, c, Thread(e + 1, c), u);
    PercentGroupHead(n, s, i, e, e, caps);
    CatHead(PercentGroup(n), Cat(Lit("%"), next), s, i, caps, Thread(e, c), u);
  }

  /** After the hue unit: saturation digits from i3 to e3 and lightness
      digits from i4 to e4, each followed by '%', then ")". */
  lemma HslRestHead(s: string, g: nat, i3: nat, e3: nat, i4: nat, e4: nat, caps: Captures)
    requires CommaBetween(s, g, i3) && DigitsTo(s, i3, e3) && e3 + 1 < |s| && s[e3] == '%'
    requires CommaBetween(s, e3 + 1, i4) && DigitsTo(s, i4, e4)
    requires |s| == e4 + 2 && s[e4] == '%' && s[e4 + 1] == ')'
    ensures HeadIs(Sep(Comma, Cat(PercentGroup(3), Cat(Lit("%"), Sep(Comma, Cat(PercentGroup(4), Cat(Lit("%"), AlphaTail(5))))))),
                   s, g, caps, Thread(|s|, caps[3 := s[i3..e3]][4 := s[i4..e4]]))
  {
    var c3 := caps[3 := s[i3..e3]];
    var c4 := c3[4 := s[i4..e4]];
    var last := Thread(|s|, c4);
    var x4 := Cat(PercentGroup(4), Cat(Lit("%"), AlphaTail(5)));
    NoAlphaHead(5, s, e4 + 1, e4 + 1, c4);
    PercentSepHead(4, AlphaTail(5), s, e3 + 1, i4, e4, c3, last);
    PercentSepHead(3, Sep(Comma, x4), s, g, i3, e3, caps, last);
  }

  /** A comma separator from e to i, then a whole-number percentage from i
      to f, captured in group n, its '%' at f, then next. */
  lemma PercentSepHead(n: nat, next: Re, s: string, e: nat, i: nat, f: nat, caps: Captures, u: Thread)
    requires CommaBetween(s, e, i) && DigitsTo(s, i, f) && f < |s| && s[f] == '%'
    requires HeadIs(next, s, f + 1, caps[n := s[i..f]], u)
    ensures HeadIs(Sep(Comma, Cat(PercentGroup(n), Cat(Lit("%"), next))), s, e, caps, u)
  {
    PercentFieldHead(n, next, s, i, f, caps, u);
    CommaSepHead(Cat(PercentGroup(n), Cat(Lit("%"), next)), s, e, i, caps, u);
  }

  /** The hue (digits from 4 to e, fraction to f) and its unit (to g), then rest. */
  lemma HueFieldHead(rest: Re, s: string, e: nat, f: nat, g: nat, u: Thread)
    requires DigitsTo(s, 4, e) && FractionTo(s, e, f, "/.")
    requires f <= g < |s| && HueUnitText(s[f..g]) && s[g] == ','
    requires var c1 := map[1 := s[4..f]];
      HeadIs(rest, s, g, if f == g then c1 else c1[2 := s[f..g]], u)
    ensures HeadIs(Cat(HueGroup, Cat(Opt(Group(2, HueUnit)), rest)), s, 4, map[], u)
  {
    var c0: Captures := map[];
    var c1 := c0[1 := s[4..f]];
    HueUnitHead(s, f, g, c1);
    CatHead(Opt(Group(2, HueUnit)), rest, s, f, c1, Thread(g, if f == g then c1 else c1[2 := s[f..g]]), u);
    HueHead(s, 4, 4, e, f, c0);
    CatHead(HueGroup, Cat(Opt(Group(2, HueUnit)), rest), s, 4, c0, Thread(f, c1), u);
  }

  /** hsl(h u, sat%, light%) from its positions: the hue digits from 4 to
      e, its fraction to f, its unit to g. */
  lemma HslHead(s: string, e: nat, f: nat, g: nat, i3: nat, e3: nat, i4: nat, e4: nat, h: string, u: string, sd: string, ld: string)
    requires DigitsTo(s, 4, e) && FractionTo(s, e, f, "/.")
    requires f <= g < |s| && HueUnitText(s[f..g]) && s[g] == ','
    requires CommaBetween(s, g, i3) && DigitsTo(s, i3, e3) && e3 + 1 < |s| && s[e3] == '%'
    requires CommaBetween(s, e3 + 1, i4) && DigitsTo(s, i4, e4)
    requires |s| == e4 + 2 && s[e4] == '%' && s[e4 + 1] == ')'
    requires s[..3] == "hsl" && s[3] == '('
    requires h == s[4..f] && u == s[f..g] && sd == s[i3..e3] && ld == s[i4..e4]
    ensures Exec(HslPattern, s) == Some(HslCaptures(h, u, sd, ld))
  {
    var c1: Captures := map[1 := h];
    var c2 := if f == g then c1 else c1[2 := u];
    var c4 := c2[3 := sd][4 := ld];
    var last := Thread(|s|, c4);
    var rest := Sep(Comma, Cat(PercentGroup(3), Cat(Lit("%"), Sep(Comma, Cat(PercentGroup(4), Cat(Lit("%"), AlphaTail(5)))))));
    HslRestHead(s, g, i3, e3, i4, e4, c2);
    HueFieldHead(rest, s, e, f, g, last);
    FunctionalHead("hsl", HslBody, s, 3, 4, map[], last);
    ExecHead(HslPattern, s, last);
  }

  /** hsl(hd hf u,sd%,ld%): an HSL text without alpha. */
  function HslText(hd: string, hf: string, u: string, sd: string, ld: string): string {
    "hsl(" + hd + hf + u + "," + sd + "%," + ld + "%)"
  }

  lemma HslTextOpen(hd: string, hf: string, u: string, sd: string, ld: string)
    ensures var s := HslText(hd, hf, u, sd, ld);
      |s| == 4 + |hd| + |hf| + |u| + 1 + |sd| + 2 + |ld| + 2 && s[..3] == "hsl" && s[3] == '(' &&
      s[|s| - 2] == '%' && s[|s| - 1] == ')'
  {
  }

  lemma HslTextHue(hd: string, hf: string, u: string, sd: string, ld: string)
    ensures var s := HslText(hd, hf, u, sd, ld);
      var e := 4 + |hd|;
      var f := e + |hf|;
      f + |u| < |s| && s[4..e] == hd && s[e..f] == hf && s[f..f + |u|] == u && s[f + |u|] == ','
  {
    var s := HslText(hd, hf, u, sd, ld);
    var y1 := "hsl(" + hd;
    var y2 := y1 + hf;
    var y3 := y2 + u;
    var y4 := y3 + ",";
    var t := sd + "%," + ld + "%)";
    assert s == y4 + t;
    var e := 4 + |hd|;
    var f := e + |hf|;
    Last("hsl(", hd);
    Within(y1, hf, 4, e);
    Within(y2, u, 4, e);
    Within(y3, ",", 4, e);
    Within(y4, t, 4, e);
    Last(y1, hf);
    Within(y2, u, e, f);
    Within(y3, ",", e, f);
    Within(y4, t, e, f);
    Last(y2, u);
    Within(y3, ",", f, f + |u|);
    Within(y4, t, f, f + |u|);
  }

  lemma HslTextPercents(hd: string, hf: string, u: string, sd: string, ld: string)
    ensures var s := HslText(hd, hf, u, sd, ld);
      var i3 := 4 + |hd| + |hf| + |u| + 1;
      var e3 := i3 + |sd|;
      var i4 := e3 + 2;
      i4 + |ld| <= |s| && s[i3..e3] == sd && s[e3] == '%' && s[e3 + 1] == ',' && s[i4..i4 + |ld|] == ld
  {
    var s := HslText(hd, hf, u, sd, ld);
    var y4 := "hsl(" + hd + hf + u + ",";
    var y5 := y4 + sd;
    var y6 := y5 + "%,";
    var y7 := y6 + ld;
    assert s == y7 + "%)";
    Last(y4, sd);
    Within(y5, "%,", |y4|, |y5|);
    Within(y6, ld, |y4|, |y5|);
    Within(y7, "%)", |y4|, |y5|);
    Last(y6, ld);
    Within(y7, "%)", |y6|, |y7|);
  }

  /** A fraction hf written at e, before a character that cannot
      continue it. */
  lemma FractionAt(s: string, e: nat, hf: string)
    requires Fraction(hf) && e + |hf| < |s| && s[e..e + |hf|] == hf
    requires !IsDigit(s[e + |hf|]) && s[e + |hf|] !in "/."
    ensures FractionTo(s, e, e + |hf|, "/.")
  {
    if hf != [] {
      assert s[e] == hf[0] && s[e + 1] == hf[1] && s[e + 1..e + |hf|] == hf[1..];
      DigitsAt(s, e + 1, hf[1..]);
    }
  }

  /** A hue of digits hd and fraction hf from 4, then its unit u and ",". */
  lemma HueAt(s: string, hd: string, hf: string, u: string, e: nat, f: nat, g: nat)
    requires Numeral(hd) && Fraction(hf) && HueUnitText(u)
    requires e == 4 + |hd| && f == e + |hf| && g == f + |u| && g < |s|
    requires s[4..e] == hd && s[e..f] == hf && s[f..g] == u && s[g] == ','
    ensures DigitsTo(s, 4, e) && FractionTo(s, e, f, "/.") && s[4..f] == hd + hf
  {
    assert s[4..f] == hd + hf;
    if u != "" {
      assert s[f] == u[0];
    }
    DigitsAt(s, 4, hd);
    FractionAt(s, e, hf);
  }

  /** A whole-number percentage d from i, right after a comma, before its '%'. */
  lemma PercentAt(s: string, i: nat, d: string)
    requires Numeral(d) && 0 < i && i + |d| < |s| && s[i..i + |d|] == d && s[i + |d|] == '%' && s[i - 1] == ','
    ensures DigitsTo(s, i, i + |d|) && CommaBetween(s, i - 1, i)
  {
    assert s[i] == d[0];
    DigitsAt(s, i, d);
  }

  /** The fields of an HSL(A) text without alpha, at the positions the
      pieces' lengths give. */
  lemma HslFields(s: string, hd: string, hf: string, u: string, sd: string, ld: string)
    requires Numeral(hd) && Fraction(hf) && HueUnitText(u) && Numeral(sd) && Numeral(ld)
    requires var e := 4 + |hd|;
      var f := e + |hf|;
      var g := f + |u|;
      var i3 := g + 1;
      var e3 := i3 + |sd|;
      var i4 := e3 + 2;
      var e4 := i4 + |ld|;
      |s| == e4 + 2 && s[..3] == "hsl" && s[3] == '(' && s[4..e] == hd && s[e..f] == hf &&
      s[f..g] == u && s[g] == ',' && s[i3..e3] == sd && s[e3] == '%' && s[e3 + 1] == ',' &&
      s[i4..e4] == ld && s[e4] == '%' && s[e4 + 1] == ')'
    ensures Exec(HslPattern, s) == Some(HslCaptures(hd + hf, u, sd, ld))
  {
    var e := 4 + |hd|;
    var f := e + |hf|;
    var g := f + |u|;
    var i3 := g + 1;
    var e3 := i3 + |sd|;
    var i4 := e3 + 2;
    var e4 := i4 + |ld|;
    HueAt(s, hd, hf, u, e, f, g);
    PercentAt(s, i3, sd);
    PercentAt(s, i4, ld);
    HslHead(s, e, f, g, i3, e3, i4, e4, hd + hf, u, sd, ld);
  }

  /** hsl(h u,sat%,light%) with a whole or fractional hue, an optional unit
      and whole-number percentages: exec captures the hue (fraction
      included), the unit when given, and the two percentages without their
      signs. */
  lemma HslExec(hd: string, hf: string, u: string, sd: string, ld: string)
    requires Numeral(hd) && Fraction(hf) && HueUnitText(u) && Numeral(sd) && Numeral(ld)
    ensures Exec(HslPattern, HslText(hd, hf, u, sd, ld)) == Some(HslCaptures(hd + hf, u, sd, ld))
  {
    HslTextOpen(hd, hf, u, sd, ld);
    HslTextHue(hd, hf, u, sd, ld);
    HslTextPercents(hd, hf, u, sd, ld);
    HslFields(HslText(hd, hf, u, sd, ld), hd, hf, u, sd, ld);
  }

  /** rgb(p1%,p2%,p3%): three whole-number percentage channels. */
  function RgbPercentText(p1: string, p2: string, p3: string): string {
    "rgb(" + p1 + "%," + p2 + "%," + p3 + "%)"
  }

  /** A percentage p written after a, followed by q. */
  lemma PercentInfix(a: string, p: string, q: string)
    requires q != []
    ensures var s := a + p + "%" + q;
      var e := |a| + |p|;
      |s| == e + 1 + |q| && s[|a|..e] == p && s[e] == '%' && s[|a|..e + 1] == p + "%" && s[e + 1] == q[0]
  {
    Infix(a, p, "%" + q);
    assert a + p + "%" + q == a + (p + "%") + q;
    Infix(a, p + "%", q);
  }

  lemma RgbPercentTextLayout(p1: string, p2: string, p3: string)
    ensures var s := RgbPercentText(p1, p2, p3);
      var e1 := 4 + |p1|;
      var e2 := e1 + 2 + |p2|;
      var e3 := e2 + 2 + |p3|;
      |s| == e3 + 2 && s[..3] == "rgb" && s[3] == '(' &&
      s[4..e1] == p1 && s[e1] == '%' && s[4..e1 + 1] == p1 + "%" && s[e1 + 1] == ',' &&
      s[e1 + 2..e2] == p2 && s[e2] == '%' && s[e1 + 2..e2 + 1] == p2 + "%" && s[e2 + 1] == ',' &&
      s[e2 + 2..e3] == p3 && s[e3] == '%' && s[e2 + 2..e3 + 1] == p3 + "%" && s[e3 + 1] == ')'
  {
    var s := RgbPercentText(p1, p2, p3);
    var x1 := "rgb(" + p1;
    var x2 := x1 + "%,";
    var x3 := x2 + p2;
    var x4 := x3 + "%,";
    var x5 := x4 + p3;
    assert s == x5 + "%)";
    var e1 := 4 + |p1|;
    var e2 := e1 + 2 + |p2|;
    var e3 := e2 + 2 + |p3|;
    Last("rgb(", p1);
    Within(x1, "%,", 4, e1);
    Within(x2, p2, 4, e1);
    Within(x3, "%,", 4, e1);
    Within(x4, p3, 4, e1);
    Within(x5, "%)", 4, e1);
    Last(x2, p2);
    Within(x3, "%,", e1 + 2, e2);
    Within(x4, p3, e1 + 2, e2);
    Within(x5, "%)", e1 + 2, e2);
    Last(x4, p3);
    Within(x5, "%)", e2 + 2, e3);
    Extend(s, 4, e1, p1, '%');
    Extend(s, e1 + 2, e2, p2, '%');
    Extend(s, e2 + 2, e3, p3, '%');
  }

  /** The fields of an RGB(A) text with three whole-number percentages. */
  lemma RgbPercentFields(s: string, p1: string, p2: string, p3: string)
    requires Numeral(p1) && Numeral(p2) && Numeral(p3)
    requires var e1 := 4 + |p1|;
      var e2 := e1 + 2 + |p2|;
      var e3 := e2 + 2 + |p3|;
      |s| == e3 + 2 && s[..3] == "rgb" && s[3] == '(' &&
      s[4..e1] == p1 && s[e1] == '%' && s[4..e1 + 1] == p1 + "%" && s[e1 + 1] == ',' &&
      s[e1 + 2..e2] == p2 && s[e2] == '%' && s[e1 + 2..e2 + 1] == p2 + "%" && s[e2 + 1] == ',' &&
      s[e2 + 2..e3] == p3 && s[e3] == '%' && s[e2 + 2..e3 + 1] == p3 + "%" && s[e3 + 1] == ')'
    ensures Exec(RgbPattern, s) == Some(PercentCaptures(p1 + "%", p2 + "%", p3 + "%"))
  {
    var e1 := 4 + |p1|;
    var e2 := e1 + 2 + |p2|;
    var e3 := e2 + 2 + |p3|;
    DigitsAt(s, 4, p1);
    DigitsAt(s, e1 + 2, p2);
    DigitsAt(s, e2 + 2, p3);
    var caps := PercentCaptures(p1 + "%", p2 + "%", p3 + "%");
    var last := Thread(|s|, caps);
    NoAlphaHead(10, s, e3 + 1, e3 + 1, caps);
    PercentChannelsHead(s, 4, e1, e1 + 2, e2, e2 + 2, e3, last);
    FunctionalHead("rgb", RgbBody, s, 3, 4, map[], last);
    ExecHead(RgbPattern, s, last);
  }

  /** rgb(p1%,p2%,p3%): exec captures each percentage with its sign. */
  lemma RgbPercentsExec(p1: string, p2: string, p3: string)
    requires Numeral(p1) && Numeral(p2) && Numeral(p3)
    ensures Exec(RgbPattern, RgbPercentText(p1, p2, p3)) == Some(PercentCaptures(p1 + "%", p2 + "%", p3 + "%"))
  {
    RgbPercentTextLayout(p1, p2, p3);
    RgbPercentFields(RgbPercentText(p1, p2, p3), p1, p2, p3);
  }

  /** The separators written before an alpha: one of , | / and at most one space. */
  predicate AlphaSepText(asep: string) {
    (|asep| == 1 || (|asep| == 2 && asep[1] == ' ')) && asep[0] in ",|/"
  }

  /** rgba(d1 sep d2 sep d3 asep ad af pct): integer channels and an alpha
      of digits ad, an optional fraction af and an optional percent sign. */
  function RgbaText(d1: string, d2: string, d3: string, sep: string, asep: string, ad: string, af: string, pct: string): string {
    "rgba(" + d1 + sep + d2 + sep + d3 + (asep + ad + af + pct + ")")
  }

  /** The captures of integer channels d1, d2, d3 and the alpha x with sign pct. */
  function AlphaCaptures(d1: string, d2: string, d3: string, x: string, pct: string): Captures {
    map[3 := d1, 6 := d2, 9 := d3][11 := pct][10 := x]
  }

  lemma RgbaTextChannels(d1: string, d2: string, d3: string, sep: string, t: string)
    ensures var s := "rgba(" + d1 + sep + d2 + sep + d3 + t;
      var e1 := 5 + |d1|;
      var b := e1 + |sep|;
      var e2 := b + |d2|;
      var c := e2 + |sep|;
      |s| == c + |d3| + |t| && s[..3] == "rgb" && s[3] == 'a' && s[4] == '(' &&
      s[5..e1] == d1 && s[e1..b] == sep && s[b..e2] == d2 && s[e2..c] == sep && s[c..c + |d3|] == d3 &&
      s[c + |d3|..] == t
  {
    var s := "rgba(" + d1 + sep + d2 + sep + d3 + t;
    Infix("rgba(", d1, sep + d2 + sep + d3 + t);
    Infix("rgba(" + d1, sep, d2 + sep + d3 + t);
    Infix("rgba(" + d1 + sep, d2, sep + d3 + t);
    Infix("rgba(" + d1 + sep + d2, sep, d3 + t);
    Infix("rgba(" + d1 + sep + d2 + sep, d3, t);
    assert s == ("rgba(" + d1 + sep + d2 + sep + d3) + t;
  }

  /** The pieces of an alpha part t, the text after the third channel. */
  predicate AlphaLayout(t: string, asep: string, ad: string, af: string, pct: string) {
    var e := |asep| + |ad|;
    var f := e + |af|;
    |t| == f + |pct| + 1 && t[..|asep|] == asep && t[|asep|..e] == ad && t[e..f] == af &&
    t[f..f + |pct|] == pct && t[f + |pct|] == ')' && t[|asep|..f + |pct|] == ad + af + pct
  }

  lemma AlphaTextLayout(asep: string, ad: string, af: string, pct: string)
    ensures AlphaLayout(asep + ad + af + pct + ")", asep, ad, af, pct)
  {
    Infix("", asep, ad + af + pct + ")");
    Infix(asep, ad, af + pct + ")");
    Infix(asep + ad, af, pct + ")");
    Infix(asep + ad + af, pct, ")");
    Infix(asep, ad + af + pct, ")");
  }

  /** The alpha separator written at i, before the alpha's first digit. */
  lemma AlphaSepAt(s: string, i: nat, asep: string)
    requires AlphaSepText(asep) && i + |asep| < |s| && s[i..i + |asep|] == asep && IsDigit(s[i + |asep|])
    ensures RunsTo(s, i, i, Space) && s[i] in ",|/" && RunsTo(s, i + 1, i + |asep|, Space)
  {
    assert s[i] == asep[0];
    if |asep| == 2 {
      assert s[i + 1] == ' ';
    }
  }

  /** The optional sign of the alpha ends at f + |pct|, before ")". */
  lemma AlphaSignAt(s: string, f: nat, pct: string)
    requires (pct == "" || pct == "%") && f + |pct| < |s| && s[f..f + |pct|] == pct && s[f + |pct|] == ')'
    ensures (if f < |s| && s[f] == '%' then f + 1 else f) == f + |pct|
    ensures RunsTo(s, f + |pct|, f + |pct|, Space) && s[f + |pct|] == ')'
  {
    if pct != "" {
      assert s[f] == '%';
    }
  }

  /** The alpha fraction ends where its sign or ")" begins. */
  lemma AlphaFractionAt(s: string, e: nat, af: string, pct: string)
    requires Fraction(af) && (pct == "" || pct == "%")
    requires e + |af| + |pct| < |s| && s[e..e + |af|] == af && s[e + |af|..e + |af| + |pct|] == pct && s[e + |af| + |pct|] == ')'
    ensures FractionTo(s, e, e + |af|, "/.")
  {
    if pct != "" {
      assert s[e + |af|] == '%';
    }
    FractionAt(s, e, af);
  }

  /** The alpha part of an RGBA text from i: separator to j2, digits to
      e, fraction to f, sign to g and ")" at g. */
  lemma AlphaFields(s: string, i: nat, j2: nat, e: nat, f: nat, g: nat, asep: string, ad: string, af: string, pct: string, caps: Captures)
    requires AlphaSepText(asep) && Numeral(ad) && Fraction(af) && (pct == "" || pct == "%")
    requires j2 == i + |asep| && e == j2 + |ad| && f == e + |af| && g == f + |pct| && |s| == g + 1
    requires s[i..j2] == asep && s[j2..e] == ad && s[e..f] == af && s[f..g] == pct && s[g] == ')'
    requires s[j2..g] == ad + af + pct
    ensures HeadIs(AlphaTail(10), s, i, caps, Thread(|s|, caps[11 := pct][10 := ad + af + pct]))
  {
    AlphaSepAt(s, i, asep);
    DigitsAt(s, j2, ad);
    AlphaFractionAt(s, e, af, pct);
    AlphaSignAt(s, f, pct);
    AlphaHead(10, 11, s, i, i, i + 1, j2, e, f, g, g, caps, ad + af + pct, pct);
  }

  /** Slices of the alpha part s[i..] are slices of s, shifted by i. */
  lemma AlphaSlices(s: string, i: nat, asep: string, ad: string, af: string, pct: string)
    requires i <= |s| && AlphaLayout(s[i..], asep, ad, af, pct)
    ensures var e := i + |asep| + |ad|;
      var f := e + |af|;
      |s| == f + |pct| + 1 && s[i..i + |asep|] == asep && s[i + |asep|..e] == ad && s[e..f] == af &&
      s[f..f + |pct|] == pct && s[f + |pct|] == ')' && s[i + |asep|..f + |pct|] == ad + af + pct
  {
    var t := s[i..];
    var e := |asep| + |ad|;
    var f := e + |af|;
    assert s[i..i + |asep|] == t[..|asep|];
    assert s[i + |asep|..i + e] == t[|asep|..e];
    assert s[i + e..i + f] == t[e..f];
    assert s[i + f..i + f + |pct|] == t[f..f + |pct|];
    assert s[i + |asep|..i + f + |pct|] == t[|asep|..f + |pct|];
  }

  /** Three integer channels from a, separated by sep, before a character
      that is none of a digit, '.' and '%'. */
  lemma ChannelsAt(s: string, a: nat, d1: string, d2: string, d3: string, sep: string, e1: nat, b: nat, e2: nat, c: nat, e3: nat)
    requires Numeral(d1) && Numeral(d2) && Numeral(d3) && CommaSep(sep)
    requires e1 == a + |d1| && b == e1 + |sep| && e2 == b + |d2| && c == e2 + |sep| && e3 == c + |d3| && e3 < |s|
    requires s[a..e1] == d1 && s[e1..b] == sep && s[b..e2] == d2 && s[e2..c] == sep && s[c..e3] == d3
    requires !IsDigit(s[e3])
    ensures DigitsTo(s, a, e1) && CommaBetween(s, e1, b)
    ensures DigitsTo(s, b, e2) && CommaBetween(s, e2, c)
    ensures DigitsTo(s, c, e3)
  {
    assert s[e1] == sep[0] && s[e2] == sep[0];
    DigitsAt(s, a, d1);
    DigitsAt(s, b, d2);
    DigitsAt(s, c, d3);
    SepAt(s, e1, sep);
    SepAt(s, e2, sep);
  }

  /** The alpha part s[i..] laid out as asep, ad, af, pct and ")". */
  lemma AlphaTailAt(s: string, i: nat, asep: string, ad: string, af: string, pct: string, caps: Captures)
    requires AlphaSepText(asep) && Numeral(ad) && Fraction(af) && (pct == "" || pct == "%")
    requires i <= |s| && AlphaLayout(s[i..], asep, ad, af, pct)
    ensures i < |s| && s[i] in ",|/"
    ensures HeadIs(AlphaTail(10), s, i, caps, Thread(|s|, caps[11 := pct][10 := ad + af + pct]))
  {
    AlphaSlices(s, i, asep, ad, af, pct);
    var j2 := i + |asep|;
    var e := j2 + |ad|;
    var f := e + |af|;
    assert s[i] == asep[0];
    AlphaFields(s, i, j2, e, f, f + |pct|, asep, ad, af, pct, caps);
  }

  /** An RGBA text split into its channels and its alpha part t. */
  lemma RgbaSplit(s: string, d1: string, d2: string, d3: string, sep: string, t: string, asep: string, ad: string, af: string, pct: string)
    requires Numeral(d1) && Numeral(d2) && Numeral(d3) && CommaSep(sep)
    requires AlphaSepText(asep) && Numeral(ad) && Fraction(af) && (pct == "" || pct == "%")
    requires var e1 := 5 + |d1|;
      var b := e1 + |sep|;
      var e2 := b + |d2|;
      var c := e2 + |sep|;
      |s| == c + |d3| + |t| && s[..3] == "rgb" && s[3] == 'a' && s[4] == '(' &&
      s[5..e1] == d1 && s[e1..b] == sep && s[b..e2] == d2 && s[e2..c] == sep && s[c..c + |d3|] == d3 &&
      s[c + |d3|..] == t
    requires AlphaLayout(t, asep, ad, af, pct)
    ensures Exec(RgbPattern, s) == Some(AlphaCaptures(d1, d2, d3, ad + af + pct, pct))
  {
    var e1 := 5 + |d1|;
    var b := e1 + |sep|;
    var e2 := b + |d2|;
    var c := e2 + |sep|;
    var e3 := c + |d3|;
    var c3 := map[3 := d1, 6 := d2, 9 := d3];
    var last := Thread(|s|, c3[11 := pct][10 := ad + af + pct]);
    AlphaTailAt(s, e3, asep, ad, af, pct, c3);
    ChannelsAt(s, 5, d1, d2, d3, sep, e1, b, e2, c, e3);
    IntegerChannelsHead(s, 5, e1, b, e2, c, e3, last);
    FunctionalHead("rgb", RgbBody, s, 4, 5, map[], last);
    ExecHead(RgbPattern, s, last);
  }

  /** rgba(d1,d2,d3,alpha) with integer channels: exec captures the
      channels as the integer groups and the alpha, with its sign, in
      groups 10 and 11. */
  lemma RgbaExec(d1: string, d2: string, d3: string, sep: string, asep: string, ad: string, af: string, pct: string)
    requires Numeral(d1) && Numeral(d2) && Numeral(d3) && CommaSep(sep)
    requires AlphaSepText(asep) && Numeral(ad) && Fraction(af) && (pct == "" || pct == "%")
    ensures Exec(RgbPattern, RgbaText(d1, d2, d3, sep, asep, ad, af, pct)) == Some(AlphaCaptures(d1, d2, d3, ad + af + pct, pct))
  {
    var t := asep + ad + af + pct + ")";
    RgbaTextChannels(d1, d2, d3, sep, t);
    AlphaTextLayout(asep, ad, af, pct);
    RgbaSplit(RgbaText(d1, d2, d3, sep, asep, ad, af, pct), d1, d2, d3, sep, t, asep, ad, af, pct);
  }
}
