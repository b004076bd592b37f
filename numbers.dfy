/** The numeric utilities of the engine: JavaScript numbers as exact
    rationals (with NaN), parseFloat and parseInt on the captured tokens,
    Math.round, to360Degrees, toFixed followed by number-to-string, and the
    RGB to HSL conversion. */
module Numbers {
  import opened Results
  import opened Text

  /** A JavaScript number as the engine uses it: a finite value, modelled as
      an exact rational, or NaN. */
  datatype Num = Num(val: real) | NaN

  /** The channel check of the constructor: isNumber(x) && 0 <= x <= hi. */
  predicate InRange(x: Num, hi: real) {
    x.Num? && 0.0 <= x.val <= hi
  }

  function Pow10(n: nat): (p: nat)
    ensures p >= 1
  {
    if n == 0 then 1 else 10 * Pow10(n - 1)
  }

  /** The end of the longest run of radix digits starting at i. */
  function RadixRun(s: string, i: nat, radix: nat): (j: nat)
    requires i <= |s|
    requires radix == 10 || radix == 16
    ensures i <= j <= |s|
    decreases |s| - i
  {
    if i < |s| && HexValue(s[i]) < radix then RadixRun(s, i + 1, radix) else i
  }

  /** The run from i ends at j when s[i..j] are radix digits and s[j] is
      not one (or j is the end). */
  lemma {:induction false} RadixRunEnds(s: string, i: nat, j: nat, radix: nat)
    requires i <= j <= |s|
    requires radix == 10 || radix == 16
    requires forall k :: i <= k < j ==> HexValue(s[k]) < radix
    requires j == |s| || HexValue(s[j]) >= radix
    ensures RadixRun(s, i, radix) == j
    decreases j - i
  {
    if i < j {
      RadixRunEnds(s, i + 1, j, radix);
    }
  }

  /** The value of the digits s[i..j] read in the given radix. */
  function ValueOf(s: string, i: nat, j: nat, radix: nat): nat
    requires i <= j <= |s|
    requires radix == 10 || radix == 16
  {
    DigitsValue(s[i..j], radix)
  }

  /** parseFloat: leading white space is skipped, then the longest prefix of
      the form [+-]? digits* ('.' digits*)? with at least one digit is read;
      NaN when there is none, and for an absent capture (parseFloat(undefined)). */
  function ParseFloat(token: Option<string>): Num {
    match token
    case None => NaN
    case Some(raw) =>
      var s := TrimStart(raw);
      var start := if |s| > 0 && (s[0] == '+' || s[0] == '-') then 1 else 0;
      var intEnd := RadixRun(s, start, 10);
      var fracEnd := if intEnd < |s| && s[intEnd] == '.' then RadixRun(s, intEnd + 1, 10) else intEnd;
      if intEnd == start && fracEnd <= intEnd + 1 then NaN
      else
        var whole := ValueOf(s, start, intEnd, 10) as real;
        var frac := if fracEnd > intEnd then ValueOf(s, intEnd + 1, fracEnd, 10) as real / Pow10(fracEnd - intEnd - 1) as real else 0.0;
        Num(if start == 1 && s[0] == '-' then -(whole + frac) else whole + frac)
  }

  /** parseInt(token, radix) for radix 10 and 16: leading white space, an
      optional sign, then the longest run of radix digits; NaN when there is
      none, and for an absent capture. */
  function ParseInt(token: Option<string>, radix: nat): Num
    requires radix == 10 || radix == 16
  {
    match token
    case None => NaN
    case Some(raw) =>
      var s := TrimStart(raw);
      var start := if |s| > 0 && (s[0] == '+' || s[0] == '-') then 1 else 0;
      var end := RadixRun(s, start, radix);
      if end == start then NaN
      else
        var v := ValueOf(s, start, end, radix) as real;
        Num(if start == 1 && s[0] == '-' then -v else v)
  }

  /** A token of decimal digits is read by parseFloat and by parseInt as
      the number those digits spell. */
  lemma ParseDigits(ds: string)
    requires ds != [] && AllDigits(ds)
    ensures ParseInt(Some(ds), 10) == Num(DigitsValue(ds, 10) as real)
    ensures ParseFloat(Some(ds)) == Num(DigitsValue(ds, 10) as real)
  {
    DigitsPrefix(ds);
  }

  lemma DigitsPrefix(ds: string)
    requires ds != [] && AllDigits(ds)
    ensures TrimStart(ds) == ds
    ensures !(ds[0] == '+' || ds[0] == '-')
    ensures RadixRun(ds, 0, 10) == |ds|
    ensures ValueOf(ds, 0, |ds|, 10) == DigitsValue(ds, 10)
  {
    RadixRunEnds(ds, 0, |ds|, 10);
    assert ds[0..|ds|] == ds;
  }

  /** parseFloat stops at the first character that cannot continue a
      number: digits followed by such a character (a percent sign, say) read
      as the number the digits spell. */
  lemma ParseDigitsThen(ds: string, rest: string)
    requires ds != [] && AllDigits(ds)
    requires rest != [] && !IsDigit(rest[0]) && rest[0] != '.'
    ensures ParseFloat(Some(ds + rest)) == Num(DigitsValue(ds, 10) as real)
  {
    var s := ds + rest;
    assert s[0] == ds[0];
    assert TrimStart(s) == s;
    assert s[|ds|] == rest[0];
    assert forall k :: 0 <= k < |ds| ==> s[k] == ds[k];
    RadixRunEnds(s, 0, |ds|, 10);
    assert s[0..|ds|] == ds;
  }

  /** The decimal numeral ds, or ds.fs when fs is not empty. */
  function DecimalToken(ds: string, fs: string): string {
    if fs == [] then ds else ds + "." + fs
  }

  /** The value a decimal numeral ds.fs spells. */
  function DecimalValue(ds: string, fs: string): real {
    DigitsValue(ds, 10) as real + DigitsValue(fs, 10) as real / Pow10(|fs|) as real
  }

  /** A decimal numeral spells no negative value. */
  lemma DecimalValueNonNegative(ds: string, fs: string)
    ensures 0.0 <= DecimalValue(ds, fs)
  {
    var a := DigitsValue(fs, 10) as real;
    var b := Pow10(|fs|) as real;
    assert 0.0 <= a / b;
  }

  /** parseFloat reads a decimal numeral as the value it spells, up to the
      first character that cannot continue it. */
  lemma ParseDecimalThen(ds: string, fs: string, rest: string)
    requires ds != [] && AllDigits(ds) && AllDigits(fs)
    requires rest != [] && !IsDigit(rest[0]) && (fs == [] ==> rest[0] != '.')
    ensures ParseFloat(Some(DecimalToken(ds, fs) + rest)) == Num(DecimalValue(ds, fs))
  {
    if fs == [] {
      ParseDigitsThen(ds, rest);
    } else {
      ParsePointThen(ds, fs, rest);
    }
  }

  /** The digits d stand at i of s and end a run of decimal digits there. */
  lemma DigitRunAt(s: string, i: nat, d: string)
    requires AllDigits(d) && i + |d| <= |s| && s[i..i + |d|] == d
    requires i + |d| == |s| || !IsDigit(s[i + |d|])
    ensures RadixRun(s, i, 10) == i + |d|
  {
    assert forall k :: i <= k < i + |d| ==> s[k] == d[k - i];
    RadixRunEnds(s, i, i + |d|, 10);
  }

  /** parseFloat on ds.fs, at the end of the text or followed by a character
      that cannot continue it. */
  lemma ParsePointThen(ds: string, fs: string, rest: string)
    requires ds != [] && AllDigits(ds) && fs != [] && AllDigits(fs)
    requires rest == [] || !IsDigit(rest[0])
    ensures ParseFloat(Some(ds + "." + fs + rest)) == Num(DecimalValue(ds, fs))
  {
    var x := ds + ".";
    var y := x + fs;
    var s := y + rest;
    var f := |ds| + 1 + |fs|;
    Within(ds, ".", 0, |ds|);
    Within(x, fs, 0, |ds|);
    Within(y, rest, 0, |ds|);
    Last(x, fs);
    Within(y, rest, |ds| + 1, f);
    assert s[0] == ds[0] && s[|ds|] == '.';
    assert f == |s| || s[f] == rest[0];
    assert TrimStart(s) == s;
    DigitRunAt(s, 0, ds);
    DigitRunAt(s, |ds| + 1, fs);
    ParseFloatPoint(s, |ds|, f);
  }

  /** parseFloat on digits to a, a point, and digits to f. */
  lemma ParseFloatPoint(s: string, a: nat, f: nat)
    requires 0 < a < |s| && TrimStart(s) == s && IsDigit(s[0]) && RadixRun(s, 0, 10) == a
    requires s[a] == '.' && a + 1 < f <= |s| && RadixRun(s, a + 1, 10) == f
    ensures ParseFloat(Some(s)) == Num(DigitsValue(s[0..a], 10) as real + DigitsValue(s[a + 1..f], 10) as real / Pow10(f - a - 1) as real)
  {
  }

  /** Two lower-case hex digits read by parseInt(_, 16) give a byte. */
  lemma ParseHexPair(p: string)
    requires |p| == 2 && AllLowerHex(p)
    ensures ParseInt(Some(p), 16) == Num((16 * HexValue(p[0]) + HexValue(p[1])) as real)
    ensures HexValue(p[0]) < 16 && HexValue(p[1]) < 16
  {
    assert TrimStart(p) == p;
    RadixRunEnds(p, 0, 2, 16);
    assert p[0..2] == p;
    assert p[..1] == [p[0]];
    assert [p[0]][..0] == [];
    assert DigitsValue([p[0]], 16) == HexValue(p[0]);
    assert DigitsValue(p, 16) == DigitsValue([p[0]], 16) * 16 + HexValue(p[1]);
  }

  /** Math.round, which rounds halves up. */
  function Round(x: real): int {
    (x + 0.5).Floor
  }

  lemma RoundInteger(n: int)
    ensures Round(n as real) == n
  {
  }

  /** Math.round gives the whole number within a half of x, the upper one
      on a tie. */
  lemma RoundNearest(x: real, k: int)
    requires k as real - 0.5 <= x < k as real + 0.5
    ensures Round(x) == k
  {
  }

  lemma RoundMonotone(x: real, y: real)
    requires x <= y
    ensures Round(x) <= Round(y)
  {
  }

  /** The value to360Degrees returns for a number: deg moved by whole turns
      into [0, 360]. Negative input lands in [0, 360); input above 360 lands in
      (0, 360]; input already in [0, 360] is kept. */
  function Wrap360(deg: real): (r: real)
    ensures 0.0 <= r <= 360.0
    ensures exists turns: int :: WholeTurns(turns, deg, r)
    ensures 0.0 <= deg <= 360.0 ==> r == deg
  {
    var turns := if deg < 0.0 then -(deg / 360.0).Floor
                 else if deg > 360.0 then (-deg / 360.0).Floor + 1
                 else 0;
    assert WholeTurns(turns, deg, deg + 360.0 * turns as real);
    deg + 360.0 * turns as real
  }

  /** moved is from, turned by the given number of whole turns. */
  predicate WholeTurns(turns: int, from: real, moved: real) {
    moved == from + 360.0 * turns as real
  }

  lemma Wrap360StepUp(d: real)
    requires d < 0.0
    ensures Wrap360(d + 360.0) == Wrap360(d)
  {
    var k := (d / 360.0).Floor;
    assert ((d + 360.0) / 360.0).Floor == k + 1 by {
      assert (d + 360.0) / 360.0 == d / 360.0 + 1.0;
    }
    if d + 360.0 >= 0.0 {
      assert k == -1;
    }
  }

  lemma Wrap360StepDown(d: real)
    requires d > 360.0
    ensures Wrap360(d - 360.0) == Wrap360(d)
  {
    var k := (-d / 360.0).Floor;
    assert (-(d - 360.0) / 360.0).Floor == k + 1 by {
      assert -(d - 360.0) / 360.0 == -d / 360.0 + 1.0;
    }
    if d - 360.0 <= 360.0 {
      assert k == -2;
    }
  }

  /** to360Degrees: NaN becomes 0; a number is moved by whole turns, one at a
      time, until it lies in [0, 360]. */
  method To360Degrees(deg: Num) returns (r: real)
    ensures deg.NaN? ==> r == 0.0
    ensures deg.Num? ==> r == Wrap360(deg.val)
  {
    if deg.Num? {
      var d := deg.val;
      while d < 0.0
        invariant Wrap360(d) == Wrap360(deg.val)
        decreases (-d).Floor + 1
      {
        Wrap360StepUp(d);
        d := d + 360.0;
      }
      while d > 360.0
        invariant d >= 0.0
        invariant Wrap360(d) == Wrap360(deg.val)
        decreases d.Floor
      {
        Wrap360StepDown(d);
        d := d - 360.0;
      }
      return d;
    }
    return 0.0;
  }

  function Zeros(n: nat): string {
    seq(n, _ => '0')
  }

  /** The text JavaScript's number-to-string gives for k / 10^e (ECMAScript
      5.1, section 9.8.1): trailing fraction zeros dropped, positional
      notation from 10^-6 up, exponent notation below. */
  function DecimalText(k: nat, e: nat): string
    decreases e
  {
    if e > 0 && k % 10 == 0 then DecimalText(k / 10, e - 1)
    else
      var d := Decimal(k);
      if k == 0 || e == 0 then d
      else if |d| > e then d[..|d| - e] + "." + d[|d| - e..]
      else if |d| - e > -6 then "0." + Zeros(e - |d|) + d
      else [d[0]] + (if |d| > 1 then "." + d[1..] else "") + "e-" + Decimal(e - |d| + 1)
  }

  /** A number with more digits than decimals, whose last digit is not a
      zero, is written with its point e digits from the right. */
  lemma DecimalTextPoint(k: nat, e: nat, d: string)
    requires e > 0 && k % 10 != 0
    requires Decimal(k) == d && |d| > e
    ensures DecimalText(k, e) == d[..|d| - e] + "." + d[|d| - e..]
  {
  }

  /** The private helper toFixed(x, digits), that is
      String(parseFloat(x.toFixed(digits))) as the formatters concatenate it:
      x rounded to the nearest multiple of 10^-digits (a tie takes the larger
      one), then written as the shortest decimal. Number.prototype.toFixed
      switches to exponent notation from 10^21 on; no caller comes near. */
  function FixedText(x: real, digits: nat): string
    requires 0.0 <= x < 1000000000000000000000.0
  {
    var k := Round(x * Pow10(digits) as real);
    assert k >= 0;
    DecimalText(k, digits)
  }

  /** A trailing zero of the fraction is dropped. */
  lemma DecimalTextShift(m: nat, e: nat)
    requires e > 0
    ensures DecimalText(10 * m, e) == DecimalText(m, e - 1)
  {
    assert (10 * m) % 10 == 0 && (10 * m) / 10 == m;
  }

  /** Trailing zeros of the fraction are dropped: a whole number scaled by
      10^e is written as the whole number. */
  lemma {:induction false} DecimalTextWhole(n: nat, e: nat)
    ensures DecimalText(n * Pow10(e), e) == Decimal(n)
    decreases e
  {
    if e > 0 {
      var m := n * Pow10(e - 1);
      assert n * Pow10(e) == 10 * m;
      DecimalTextShift(m, e);
      DecimalTextWhole(n, e - 1);
    }
  }

  /** A whole number keeps no decimals, however many are allowed. */
  lemma FixedWhole(n: nat, digits: nat)
    requires n < 1000
    ensures FixedText(n as real, digits) == Decimal(n)
  {
    var k := n * Pow10(digits);
    assert n as real * Pow10(digits) as real == k as real;
    RoundInteger(k);
    DecimalTextWhole(n, digits);
  }

  lemma DecimalNoComma(n: nat)
    ensures ',' !in Decimal(n)
  {
    DecimalIsDigits(n);
  }

  /** A rendered number never contains the separator of the functional forms. */
  lemma {:induction false} DecimalTextNoComma(k: nat, e: nat)
    ensures ',' !in DecimalText(k, e)
    decreases e
  {
    if e > 0 && k % 10 == 0 {
      DecimalTextNoComma(k / 10, e - 1);
    } else {
      var d := Decimal(k);
      DecimalNoComma(k);
      assert ',' !in d[..|d|] && ',' !in d[1..] by {
        if |d| > 0 {
          assert forall j :: 0 <= j <= |d| ==> ',' !in d[..j] && ',' !in d[j..];
        }
      }
      assert forall j :: 0 <= j <= |d| ==> ',' !in d[..j] && ',' !in d[j..];
      assert ',' !in Zeros(e + 6);
      if e + 1 >= |d| {
        DecimalNoComma(e - |d| + 1);
      }
    }
  }

  function Max(x: real, y: real): real {
    if x >= y then x else y
  }

  function Min(x: real, y: real): real {
    if x <= y then x else y
  }

  /** Hue in [0, 1), saturation and lightness in [0, 1]. */
  datatype Hsl = Hsl(h: real, s: real, l: real)

  /** rgb2hsl: channels scaled to [0, 1]; lightness is the mid-range;
      equal extremes give hue and saturation 0; otherwise the saturation is
      the spread over the (mirrored) range and the hue is read off the
      channel that holds the maximum, tried in the order red, green, blue. */
  function Rgb2Hsl(red: real, green: real, blue: real): (hsl: Hsl)
    requires 0.0 <= red <= 255.0 && 0.0 <= green <= 255.0 && 0.0 <= blue <= 255.0
    ensures 0.0 <= hsl.h < 1.0 && 0.0 <= hsl.s <= 1.0 && 0.0 <= hsl.l <= 1.0
    ensures hsl.l == (Max(Max(red, green), blue) + Min(Min(red, green), blue)) / 510.0
    ensures hsl.s == 0.0 <==> red == green == blue
    ensures red == green == blue ==> hsl.h == 0.0
  {
    var r, g, b := red / 255.0, green / 255.0, blue / 255.0;
    var mx := Max(Max(r, g), b);
    var mn := Min(Min(r, g), b);
    var l := (mx + mn) / 2.0;
    if mx == mn then Hsl(0.0, 0.0, l)
    else
      var d := mx - mn;
      var s := if l > 0.5 then d / (2.0 - mx - mn) else d / (mx + mn);
      var h := if mx == r then (g - b) / d + (if g < b then 6.0 else 0.0)
               else if mx == g then (b - r) / d + 2.0
               else (r - g) / d + 4.0;
      assert 0.0 < s <= 1.0 by { SaturationBound(mx, mn); }
      assert 0.0 <= h < 6.0 by { HueSextantBound(r, g, b, mx, mn); }
      Hsl(h / 6.0, s, l)
  }

  lemma SaturationBound(mx: real, mn: real)
    requires 0.0 <= mn < mx <= 1.0
    ensures var l := (mx + mn) / 2.0;
            var s := if l > 0.5 then (mx - mn) / (2.0 - mx - mn) else (mx - mn) / (mx + mn);
            0.0 < s <= 1.0
  {
    var l := (mx + mn) / 2.0;
    if l > 0.5 {
      DivBound(mx - mn, 2.0 - mx - mn);
    } else {
      DivBound(mx - mn, mx + mn);
    }
  }

  lemma DivBound(x: real, y: real)
    requires 0.0 < x <= y
    ensures 0.0 < x / y <= 1.0
  {
  }

  lemma HueSextantBound(r: real, g: real, b: real, mx: real, mn: real)
    requires mx == Max(Max(r, g), b) && mn == Min(Min(r, g), b) && mn < mx
    ensures var d := mx - mn;
            var h := if mx == r then (g - b) / d + (if g < b then 6.0 else 0.0)
                     else if mx == g then (b - r) / d + 2.0
                     else (r - g) / d + 4.0;
            0.0 <= h < 6.0
  {
    var d := mx - mn;
    if mx == r {
      if g < b {
        assert -d <= g - b < 0.0;
        UnitRatio(g - b, d);
      } else {
        assert 0.0 <= g - b <= d;
        UnitRatio(g - b, d);
      }
    } else if mx == g {
      assert -d <= b - r <= d;
      UnitRatio(b - r, d);
    } else {
      assert -d <= r - g <= d;
      UnitRatio(r - g, d);
    }
  }

  lemma UnitRatio(x: real, d: real)
    requires d > 0.0 && -d <= x <= d
    ensures -1.0 <= x / d <= 1.0
    ensures x < 0.0 ==> x / d < 0.0
    ensures x >= 0.0 ==> x / d >= 0.0
  {
    var q := x / d;
    assert q * d == x;
  }

  /** parseInt(x, 10) of a number written without an exponent: the integer
      part, rounded toward zero. */
  function Truncate(x: real): (n: int)
    ensures x >= 0.0 ==> n as real <= x < n as real + 1.0
    ensures x < 0.0 ==> n as real - 1.0 < x <= n as real
  {
    if x >= 0.0 then x.Floor else -((-x).Floor)
  }
}
