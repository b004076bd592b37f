/** Character classes, trimming, case mapping and the integer-to-text
    conversions the engine relies on (String.prototype.trim, toLowerCase,
    toUpperCase, Number.prototype.toString with radix 10 and 16, zeroPad2). */
module Text {

  /** The characters that String.prototype.trim removes and that the regular
      expression class \s matches: WhiteSpace and LineTerminator of
      ECMAScript 2024, sections 12.2 and 12.3 (U+180E is no longer white
      space there). */
  predicate IsSpace(c: char) {
    || c == '\t' || c == '\n' || c == '\U{000B}' || c == '\U{000C}' || c == '\r'
    || c == ' ' || c == '\U{00A0}' || c == '\U{1680}'
    || ('\U{2000}' <= c <= '\U{200A}')
    || c == '\U{2028}' || c == '\U{2029}' || c == '\U{202F}' || c == '\U{205F}'
    || c == '\U{3000}' || c == '\U{FEFF}'
  }

  predicate IsDigit(c: char) {
    '0' <= c <= '9'
  }

  /** The class [0-9a-f] of the HEX pattern. */
  predicate IsLowerHex(c: char) {
    IsDigit(c) || 'a' <= c <= 'f'
  }

  predicate AllDigits(s: string) {
    forall i :: 0 <= i < |s| ==> IsDigit(s[i])
  }

  predicate AllLowerHex(s: string) {
    forall i :: 0 <= i < |s| ==> IsLowerHex(s[i])
  }

  /** Drops the leading white space. */
  function TrimStart(s: string): (r: string)
    ensures |r| <= |s|
  {
    if s != [] && IsSpace(s[0]) then TrimStart(s[1..]) else s
  }

  /** Drops the trailing white space. */
  function TrimEnd(s: string): (r: string)
    ensures |r| <= |s|
  {
    if s != [] && IsSpace(s[|s| - 1]) then TrimEnd(s[..|s| - 1]) else s
  }

  /** String.prototype.trim. */
  function Trim(s: string): string {
    TrimEnd(TrimStart(s))
  }

  /** A string that neither starts nor ends with white space is its own trim. */
  lemma TrimUnchanged(s: string)
    requires s == [] || (!IsSpace(s[0]) && !IsSpace(s[|s| - 1]))
    ensures Trim(s) == s
  {
  }

  /** What TrimStart leaves does not start with white space. */
  lemma {:induction false} TrimStartEdge(s: string)
    ensures TrimStart(s) == [] || !IsSpace(TrimStart(s)[0])
  {
    if s != [] && IsSpace(s[0]) {
      TrimStartEdge(s[1..]);
    }
  }

  /** What TrimEnd leaves is a prefix of its input that does not end with
      white space. */
  lemma {:induction false} TrimEndEdge(s: string)
    ensures TrimEnd(s) == s[..|TrimEnd(s)|]
    ensures TrimEnd(s) == [] || !IsSpace(TrimEnd(s)[|TrimEnd(s)| - 1])
  {
    if s != [] && IsSpace(s[|s| - 1]) {
      var p := s[..|s| - 1];
      TrimEndEdge(p);
      assert TrimEnd(s) == TrimEnd(p);
      assert p[..|TrimEnd(p)|] == s[..|TrimEnd(p)|];
    }
  }

  /** The result of trim neither starts nor ends with white space. */
  lemma TrimEdges(s: string)
    ensures Trim(s) == [] || (!IsSpace(Trim(s)[0]) && !IsSpace(Trim(s)[|Trim(s)| - 1]))
  {
    var t := TrimStart(s);
    TrimStartEdge(s);
    TrimEndEdge(t);
    if Trim(s) != [] {
      assert Trim(s)[0] == t[0];
    }
  }

  function LowerChar(c: char): char {
    if 'A' <= c <= 'Z' then (c as int + 32) as char else c
  }

  function UpperChar(c: char): char {
    if 'a' <= c <= 'z' then (c as int - 32) as char else c
  }

  /** String.prototype.toLowerCase, on the ASCII letters. */
  function ToLower(s: string): string {
    seq(|s|, i requires 0 <= i < |s| => LowerChar(s[i]))
  }

  /** String.prototype.toUpperCase, on the ASCII letters. */
  function ToUpper(s: string): string {
    seq(|s|, i requires 0 <= i < |s| => UpperChar(s[i]))
  }

  /** Lower-casing leaves white space where it was and changes nothing a
      second time. */
  lemma LowerKeepsSpace(s: string)
    ensures forall i :: 0 <= i < |s| ==> (IsSpace(ToLower(s)[i]) <==> IsSpace(s[i]))
    ensures ToLower(ToLower(s)) == ToLower(s)
  {
  }

  /** Case mapping works character by character. */
  lemma CaseConcat(a: string, b: string)
    ensures ToLower(a + b) == ToLower(a) + ToLower(b)
    ensures ToUpper(a + b) == ToUpper(a) + ToUpper(b)
  {
  }

  /** Text without upper-case letters is its own lower case. */
  lemma LowerUnchanged(s: string)
    requires forall i :: 0 <= i < |s| ==> !('A' <= s[i] <= 'Z')
    ensures ToLower(s) == s
  {
  }

  lemma UpperTwice(s: string)
    ensures ToUpper(ToUpper(s)) == ToUpper(s)
  {
  }

  /** Lower-casing forgets an upper-casing that came before it. */
  lemma LowerOfUpper(s: string)
    ensures ToLower(ToUpper(s)) == ToLower(s)
    ensures ToUpper(ToLower(s)) == ToUpper(s)
  {
  }

  /** Lower-casing undoes upper-casing on lower-case hex text. */
  lemma LowerUpperHex(s: string)
    requires AllLowerHex(s)
    ensures ToLower(ToUpper(s)) == s
  {
  }

  /** Upper-casing undoes lower-casing on text that has no lower-case letter. */
  lemma UpperLowerNoLower(s: string)
    requires forall i :: 0 <= i < |s| ==> !('a' <= s[i] <= 'z')
    ensures ToUpper(ToLower(s)) == s
  {
  }

  /** The digit characters of radix 16, lower case as Number.prototype.toString
      writes them. */
  const HexDigits: string := "0123456789abcdef"

  function DigitChar(d: nat): (c: char)
    requires d < 16
    ensures IsLowerHex(c)
  {
    HexDigits[d]
  }

  /** The value of one character in radix 16 (either case); 16 for any other. */
  function HexValue(c: char): (v: nat)
    ensures v <= 16
    ensures v < 16 <==> IsDigit(c) || 'a' <= c <= 'f' || 'A' <= c <= 'F'
  {
    if IsDigit(c) then c as int - '0' as int
    else if 'a' <= c <= 'f' then c as int - 'a' as int + 10
    else if 'A' <= c <= 'F' then c as int - 'A' as int + 10
    else 16
  }

  lemma HexValueOfDigitChar(d: nat)
    requires d < 16
    ensures HexValue(DigitChar(d)) == d
  {
  }

  lemma DigitCharOfHexValue(c: char)
    requires IsLowerHex(c)
    ensures HexValue(c) < 16 && DigitChar(HexValue(c)) == c
  {
  }

  /** Number.prototype.toString(radix) of a non-negative integer, radix 10 or 16. */
  function InRadix(n: nat, radix: nat): (r: string)
    requires radix == 10 || radix == 16
    ensures |r| >= 1
    ensures forall i :: 0 <= i < |r| ==> IsLowerHex(r[i]) && HexValue(r[i]) < radix
    decreases n
  {
    if n < radix then [DigitChar(n)] else InRadix(n / radix, radix) + [DigitChar(n % radix)]
  }

  /** The decimal text of a natural number. */
  function Decimal(n: nat): string {
    InRadix(n, 10)
  }

  /** The value of a string of radix-10 or radix-16 digits, read left to right. */
  function DigitsValue(ds: string, radix: nat): nat
    requires radix == 10 || radix == 16
  {
    if ds == [] then 0
    else DigitsValue(ds[..|ds| - 1], radix) * radix + (if HexValue(ds[|ds| - 1]) < radix then HexValue(ds[|ds| - 1]) else 0)
  }

  /** One more digit on the right multiplies by the radix and adds it. */
  lemma DigitsValueSnoc(ds: string, c: char, radix: nat)
    requires radix == 10 || radix == 16
    requires HexValue(c) < radix
    ensures DigitsValue(ds + [c], radix) == DigitsValue(ds, radix) * radix + HexValue(c)
  {
    assert (ds + [c])[..|ds|] == ds;
  }

  lemma DivModRadix(n: nat, radix: nat)
    requires radix == 10 || radix == 16
    ensures n == (n / radix) * radix + n % radix
  {
    if radix == 10 {
      assert n == (n / 10) * 10 + n % 10;
    } else {
      assert n == (n / 16) * 16 + n % 16;
    }
  }

  /** A one-digit number reads back as itself. */
  lemma InRadixBase(n: nat, radix: nat)
    requires radix == 10 || radix == 16
    requires n < radix
    ensures DigitsValue(InRadix(n, radix), radix) == n
  {
    HexValueOfDigitChar(n);
    DigitsValueSnoc([], DigitChar(n), radix);
    assert InRadix(n, radix) == [] + [DigitChar(n)];
  }

  /** The last digit of a longer number adds its remainder to the value of
      the digits before it. */
  lemma InRadixStep(n: nat, radix: nat)
    requires radix == 10 || radix == 16
    requires n >= radix
    requires DigitsValue(InRadix(n / radix, radix), radix) == n / radix
    ensures DigitsValue(InRadix(n, radix), radix) == n
  {
    var q, m := n / radix, n % radix;
    var head := InRadix(q, radix);
    assert InRadix(n, radix) == head + [DigitChar(m)];
    HexValueOfDigitChar(m);
    DigitsValueSnoc(head, DigitChar(m), radix);
    DivModRadix(n, radix);
  }

  /** Reading back the text of a number gives the number. */
  lemma {:induction false} InRadixRoundTrip(n: nat, radix: nat)
    requires radix == 10 || radix == 16
    ensures DigitsValue(InRadix(n, radix), radix) == n
    decreases n
  {
    if n < radix {
      InRadixBase(n, radix);
    } else {
      InRadixRoundTrip(n / radix, radix);
      InRadixStep(n, radix);
    }
  }

  /** Different numbers have different decimal texts. */
  lemma DecimalInjective(m: nat, n: nat)
    requires Decimal(m) == Decimal(n)
    ensures m == n
  {
    InRadixRoundTrip(m, 10);
    InRadixRoundTrip(n, 10);
  }

  lemma DecimalIsDigits(n: nat)
    ensures AllDigits(Decimal(n))
  {
  }

  /** zeroPad2: prefixes "0" to a one-character string. */
  function ZeroPad2(s: string): string {
    if |s| == 1 then "0" + s else s
  }

  /** A byte in radix 16, zero-padded, is exactly its two hex digits. */
  lemma PaddedByte(n: nat)
    requires n < 256
    ensures ZeroPad2(InRadix(n, 16)) == [DigitChar(n / 16), DigitChar(n % 16)]
  {
    if n >= 16 {
      assert InRadix(n / 16, 16) == [DigitChar(n / 16)];
    }
  }

  /** Where the characters of a head, a comma and a tail sit. */
  lemma CommaAt(a: string, b: string, i: int)
    ensures 0 <= i < |a| ==> (a + "," + b)[i] == a[i]
    ensures (a + "," + b)[|a|] == ','
  {
  }

  /** Two texts that join a comma-free head to a tail with a comma agree
      on head and tail: the first comma tells where the head ends. */
  lemma SplitAtComma(a1: string, b1: string, a2: string, b2: string)
    requires ',' !in a1 && ',' !in a2
    requires a1 + "," + b1 == a2 + "," + b2
    ensures a1 == a2 && b1 == b2
  {
    var s1, s2 := a1 + "," + b1, a2 + "," + b2;
    if |a1| < |a2| {
      CommaAt(a1, b1, |a1|);
      CommaAt(a2, b2, |a1|);
      assert false;
    } else if |a2| < |a1| {
      CommaAt(a2, b2, |a2|);
      CommaAt(a1, b1, |a2|);
      assert false;
    }
    assert a1 == s1[..|a1|] && a2 == s2[..|a2|];
    assert b1 == s1[|a1| + 1..] && b2 == s2[|a2| + 1..];
  }

  /** A slice inside x is a slice of x + y. */
  lemma Within(x: string, y: string, i: nat, j: nat)
    requires i <= j <= |x|
    ensures (x + y)[i..j] == x[i..j]
  {
  }

  /** m ends x + m. */
  lemma Last(x: string, m: string)
    ensures (x + m)[|x|..|x| + |m|] == m
  {
  }

  /** A slice followed by one more character. */
  lemma Extend(s: string, i: nat, j: nat, m: string, c: char)
    requires i <= j < |s| && s[i..j] == m && s[j] == c
    ensures s[i..j + 1] == m + [c]
  {
  }

  /** m stands in a + m + b right after a. */
  lemma Infix(a: string, m: string, b: string)
    ensures |a + m + b| == |a| + |m| + |b|
    ensures (a + m + b)[|a|..|a| + |m|] == m
  {
  }
}
