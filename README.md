# ColorInterpreter colour-string engine, in Dafny

This project models the colour engine of ColorInterpreter (`index.js`). The
`Color` constructor turns a CSS colour string into red, green and blue
channels in [0, 255] and an alpha in [0, 1]. The formatters turn the channels
back into text. `equals`, `difference` and `brightness` compare colours.
`Color.addKeyword` extends the two keyword tables. The channels are exact
rationals (`real`), and NaN is a separate value of `Num`.

The modules follow the program's structure:

- `Results` (results.dfy): `Option`, `Result`, and one `Error` per message the
  engine throws.
- `Text` (text.dfy): white space as `trim` and `\s` see it, ASCII case mapping,
  and number-to-text in radix 10 and 16. It also has `zeroPad2`.
- `Numbers` (numbers.dfy): `parseFloat` and `parseInt` on captures,
  `Math.round`, `to360Degrees` (a `while` loop, proved against `Wrap360`),
  `toFixed` with the number-to-text that follows it, and `rgb2hsl`.
- `Regex` (regex.dfy): a backtracking matcher with the JavaScript priority of
  alternatives and greedy repetition. The three scheme patterns are written
  as terms of it, so captures are assigned as `RegExp.exec` assigns them.
- `Schemes` (schemes.dfy): the HSL(A), RGB(A) and HEX patterns and their
  `process` functions, including `hue2rgb`.
- `Parser` (parser.dfy): the constructor's pipeline as pure functions. The
  steps are normalize, keyword substitution, currentcolor, HEX expansion, the
  scheme loop and the range checks.
- `Format` (format.dfy): `toRGB`, `toRGBA`, `toPercentageRGB(A)`, `toHSL(A)`,
  `toHEX`, `toHEXA`, `toKeyword` and the `toString` dispatcher.
- `Metrics` (metrics.dfy): `equals`, `difference` and `brightness`.
- `ColorInterpreter` (color.dfy):
  - the `Color` class with its fields `r`, `g`, `b`, `a`, `fixed` and `valid`;
  - its constructor `Color.Create`, an imperative scheme loop proved against
    `Parse`;
  - `setFixed`;
  - the `KeywordTable` class, whose `AddKeyword` updates the two maps in place.
    It writes the corrected reverse key (see "## Findings").
- `SchemeTexts` (schemetexts.dfy): the texts `rgb(d1,d2,d3)`, `rgb(p1%,p2%,p3%)`,
  `rgba(d1,d2,d3,alpha)` and `hsl(hue,s%,l%)`, and what `exec` captures from
  each of them.
- `ParseTexts` (parsetexts.dfy): what `Color` gives for those texts, and the
  round trip of `toRGB`.
- `PercentTexts` (percenttexts.dfy): the range check and the colour of
  `rgb(p1%,p2%,p3%)`.
- `KnownColors` (knowncolors.dfy): the colours and errors the library's test
  suite uses, for example red, rebeccapurple in five HSL spellings, and the
  seven constructor errors.

Two behaviours of the code worth knowing:

- The scheme loop runs from the last scheme to the first, so HEX is tried
  first, then RGB(A), then HSL(A). `Parser.SchemeOrderIrrelevant` shows that no
  text is matched by two schemes, so the order does not change any result.
- The text the currentcolor resolver returns is not trimmed, lower-cased or
  looked up as a keyword again. It goes straight to the HEX step.

The keyword tables are abstract maps: `Keywords` maps a name to
`Canonical(text)` or to `CurrentColor`. The context of currentcolor is the
computed colour text of the element (`Option<string>`; `None` when there is
no element).

## Model

| member | source | states |
|---|---|---|
| Text.TrimEdges | index.js:543 | the trimmed input neither starts nor ends with white space |
| Text.LowerKeepsSpace | index.js:543 | lower-casing keeps white space in place and is idempotent |
| Text.LowerOfUpper | index.js:801-807 | lower-casing after upper-casing is plain lower-casing, and the other way round |
| Text.InRadixRoundTrip | index.js:755-757 | reading back `Number.prototype.toString(radix)` of a natural number gives the number |
| Text.DecimalInjective | index.js:661-662 | different channel values have different decimal texts |
| Text.PaddedByte | index.js:1312-1314 | `zeroPad2` of a byte in radix 16 is exactly its two digits, high then low |
| Text.SplitAtComma | index.js:685-686 | comma-joined fields without commas are recovered field by field |
| Numbers.ParseDigits | index.js:449-466 | `parseInt` and `parseFloat` of a run of digits give its decimal value |
| Numbers.ParseDigitsThen | index.js:371-375 | `parseFloat` stops at the first character that is neither digit nor '.' |
| Numbers.ParseHexPair | index.js:473-479 | `parseInt(_, 16)` of two lower-case hex digits is 16 * high + low |
| Numbers.RoundMonotone | index.js:46 | `Math.round` never decreases |
| Numbers.Wrap360 | index.js:1289-1303 | the hue lies in [0, 360], differs from the input by whole turns, and is unchanged when already in range |
| Numbers.Wrap360StepUp | index.js:1291-1293 | one turn added by the first loop does not change the result |
| Numbers.Wrap360StepDown | index.js:1295-1297 | one turn taken off by the second loop does not change the result |
| Numbers.To360Degrees | index.js:1289-1303 | the loops end with `Wrap360` of a number and with 0 for NaN |
| Numbers.DecimalTextWhole | index.js:1325-1327 | a whole number printed with fixed decimals shows no fraction |
| Numbers.FixedWhole | index.js:1325-1327 | `toFixed` of a whole number is its decimal text, whatever the decimals |
| Numbers.DecimalTextNoComma | index.js:683-687 | a rendered number never contains a comma |
| Numbers.Rgb2Hsl | index.js:1339-1367 | hue in [0, 1), saturation and lightness in [0, 1]; lightness is the mid-range; saturation 0 exactly for a grey, and then hue 0 |
| Numbers.Truncate | index.js:826-832 | the integer part of a number, rounded toward zero |
| Regex.CatSingle | index.js:590 | a concatenation whose first part matches one way continues from there |
| Regex.LitPrefixNeeded | index.js:366-369 | a pattern starting with a literal matches only text that starts with it |
| Schemes.HexExec | index.js:470-471 | the HEX pattern matches exactly eight lower-case hex digits, capturing the four pairs |
| Schemes.SchemesExclusive | index.js:363-482 | no text is matched by two of the three scheme patterns |
| Schemes.HexValues | index.js:473-480 | HEX `process` gives the four bytes, the last divided by 255, each below 256 |
| Schemes.AlphaAbsent | index.js:402-408 | a missing alpha becomes 1 |
| Schemes.AlphaValue | index.js:402-406 | a '%' alpha is divided by 100, any other is taken as it is |
| Schemes.RgbIntegerChannel | index.js:452-455 | an integer RGB channel is its value, in range iff it is at most 255 |
| Schemes.RgbPercentChannel | index.js:452-455 | a percentage RGB channel ds[.fs]%, whole or with a fraction, is v * 255 / 100, in range iff v is at most 100 |
| Schemes.HueBound | index.js:410-421 | the normalized hue lies in [0, 360] for every input, NaN included |
| Schemes.Hue2RgbBetween | index.js:377-400 | `hue2rgb` stays between p and q |
| Schemes.HslToRgbInGamut | index.js:424-431 | HSL values in [0, 1] give RGB values in [0, 1] |
| Schemes.HslInGamut | index.js:371-438 | HSL(A) text with percentages up to 100 always passes the channel checks |
| Schemes.HslAchromatic | index.js:424-425 | saturation 0 gives r = g = b = 2.55 * lightness |
| Schemes.HslNaN | index.js:424-437 | a NaN saturation or lightness gives NaN channels |
| Parser.NormalizeIdempotent | index.js:543 | normalizing twice is normalizing once |
| Parser.Resolve | index.js:546-557 | fails exactly for currentcolor without a context; text not in the table passes unchanged |
| Parser.ExpandHex | index.js:560-583 | text not starting with '#' passes; otherwise success iff the body, cut to 8, has 3, 4, 6 or 8 digits, and then 8 digits result |
| Parser.HexShorthand3 | index.js:564-567 | #xyz stands for #xxyyzzff |
| Parser.HexShorthand4 | index.js:569-573 | #wxyz stands for #wwxxyyzz |
| Parser.HexOpaque | index.js:575-576 | six digits stand for the same digits and "ff" |
| Parser.HexTruncated | index.js:562 | anything after the eighth hex digit is ignored |
| Parser.Validate | index.js:623-641 | success iff all four checks pass; each error is reported exactly when the checks before it passed and it failed |
| Parser.Scan | index.js:587-650 | the scheme loop yields only valid colours or scheme errors, and "unparsable" exactly when no pattern matched |
| Parser.Parse | index.js:517-651 | the constructor yields only colours in range, and only the errors of `ColorError` |
| Parser.Finish | index.js:560-650 | after substitution, only HEX-length and scheme errors can arise |
| Parser.ParseNormalized | index.js:543 | the constructor ignores case and surrounding white space |
| Parser.SchemeOrderIrrelevant | index.js:587 | trying the schemes in declaration order gives the same result as the code's reverse order |
| Parser.HexRgba | index.js:473-480 | the colour of eight hex digits is always in range |
| Parser.InterpretHex | index.js:587-645 | eight lower-case hex digits pass the scheme loop as their bytes |
| Parser.ParseHex | index.js:517-651 | "#" and eight hex digits parse as their bytes, alpha byte / 255 |
| Parser.ParseBareHex | index.js:587-645 | eight hex digits without '#' parse like the same digits with it |
| Parser.ParseKeyword | index.js:546 | a keyword parses as the hex digits the forward table gives for it |
| Parser.ParseCurrentColor | index.js:549-557 | currentcolor without a context throws; with one, the context's colour text is parsed |
| Parser.ParseHexLength | index.js:579-582 | a '#' text whose body has 0, 1, 2, 5 or 7 digits fails with "Unable to parse HEX color" |
| Parser.ParseShorthand | index.js:564-567 | "#xyz" parses as the opaque colour of xxyyzz |
| Format.Channel | index.js:659-663 | `Math.round` of a channel is within 0.5 of it and at most 255 |
| Format.ToFixed | index.js:1325-1327 | a RangeError exactly for decimals outside 0..100, otherwise the rounded text |
| Format.ToRGBA | index.js:683-687 | fails exactly when twice the fixed setting is outside 0..100 |
| Format.ToPercentageRGB | index.js:670-676 | fails exactly when the fixed setting is outside 0..100 |
| Format.ToPercentageRGBA | index.js:694-701 | fails exactly when the fixed setting is outside 0..50 |
| Format.HslOf | index.js:708-716 | the HSL values printed: hue in [0, 360), saturation and lightness in [0, 100] |
| Format.ToHSL | index.js:708-716 | fails exactly when the fixed setting is outside 0..100 |
| Format.ToHSLA | index.js:723-732 | fails exactly when the fixed setting is outside 0..50 |
| Format.ToKeyword | index.js:739-745 | the reverse table's entry for the looked-up key, and "" only when there is none or it is empty |
| Format.ByteOfPair | index.js:755-757 | the two hex digits of a byte read back as the byte |
| Format.PairOfByte | index.js:473-479 | two hex digits are written again as themselves |
| Format.HexaShape | index.js:752-770 | `toHEXA` is '#' and eight upper-case hex digits |
| Format.HexRgbaOfDigits | index.js:765-770 | reading a colour's HEXA digits back gives the colour with its channels rounded |
| Format.DigitsOfHexRgba | index.js:473-480 | the digits of the colour that eight hex digits spell are those digits |
| Format.HexaOfHex | index.js:470-479 | for eight lower-case hex digits s, `Color("#"+s).toHEXA()` is "#" + upper(s) |
| Format.ParseHexa | index.js:517-651 | `toHEXA` text parses back to the colour, quantized to bytes |
| Format.NormalizeUpperHex | index.js:543 | upper-case HEX text normalizes to its lower-case digits |
| Format.QuantizeIdempotent | index.js:765-770 | quantizing twice is quantizing once, so HEXA text is a fixed point |
| Format.FormOfByName | index.js:793-817 | the format `toString` picks depends only on the lower-cased name |
| Format.ToStringCaseInsensitive | index.js:793-817 | a scheme name gives the same text in any case |
| Format.ToStringDefault | index.js:815-816 | without a string argument `toString` gives `toHEX` |
| Format.ToRGBAAlpha | index.js:683-687 | an opaque alpha is written "1" and a transparent one "0", whatever the fixed setting |
| Format.ReverseKeyDigits | index.js:741-744 | the looked-up key of a colour that is not transparent is its six hex digits and "ff" |
| Format.ReverseKeyOfHex | index.js:739-745 | the key of a colour read from opaque (or all-zero) hex digits is those digits |
| Format.KeywordRoundTrip | index.js:739-745 | a keyword's colour names, through `toKeyword`, what the reverse table holds for its digits |
| Format.GoldPercentageRGBA2 | index.js:694-701 | gold in percentage form is "rgba(100%,84.31%,0%,1)" |
| Format.GoldPercentageRGBA3 | index.js:826-832 | after setFixed(3) it is "rgba(100%,84.314%,0%,1)" |
| Format.GoldPercentageRGBA6 | index.js:826-832 | after setFixed(6) it is "rgba(100%,84.313725%,0%,1)" |
| Metrics.Operand2Color | index.js:855-861 | a string argument is parsed without a context, and its parse error is thrown |
| Metrics.RgbaTextsEqual | index.js:683-687 | two `toRGBA` texts are equal iff the rounded channels agree and the alphas are written alike |
| Metrics.EqualsOther | index.js:862 | equals with a value that is neither a string nor a Color is false |
| Metrics.EqualsText | index.js:855-861 | equals with a string compares with its parsed colour at fixed 2; an unparsable string is thrown |
| Metrics.EqualsInstance | index.js:851-863 | a RangeError for an unusable fixed setting, otherwise true iff channels round alike and alphas print alike |
| Metrics.EqualsReflexive | index.js:851-863 | a colour equals itself |
| Metrics.EqualsSymmetric | index.js:851-863 | equals between two colours does not depend on which is asked |
| Metrics.EqualsTransitive | index.js:851-863 | colours equal to a common one are equal |
| Metrics.Difference | index.js:931-946 | an error exactly for an unparsable string, -1 exactly for a non-colour |
| Metrics.DistanceMetric | index.js:940-942 | the difference is symmetric, non-negative, 0 iff the channels are equal, at most 765 |
| Metrics.DistanceTriangle | index.js:940-942 | the difference obeys the triangle inequality |
| Metrics.DifferenceSymmetric | index.js:931-946 | difference between two colours is symmetric and 0 iff the channels agree |
| Metrics.DifferenceShorthand | index.js:931-946 | "#000" differs by 0 from the colour of "#000000", and likewise for every three-digit text |
| Metrics.BrightnessBounds | index.js:917-920 | brightness lies between the least and largest channel, so in [0, 255]; a grey is as bright as its channels |
| Metrics.BrightnessMonotone | index.js:917-920 | raising any channel never lowers the brightness |
| Metrics.BrightnessBlackWhite | index.js:917-920 | "#000" has brightness 0 and "#fff" brightness 255 |
| SchemeTexts.RgbIntegersExec | index.js:443-447 | `exec` of `rgb(d1,d2,d3)`, with "," or ", " between the channels, captures exactly the three numerals as groups 3, 6 and 9 |
| SchemeTexts.RgbPercentsExec | index.js:443-447 | `exec` of `rgb(p1%,p2%,p3%)` captures each percentage and its sign |
| SchemeTexts.RgbaExec | index.js:443-447 | `exec` of `rgba(d1,d2,d3,alpha)`, with ',', '|' or '/' and at most one space before the alpha, captures the channels and the alpha with its sign |
| SchemeTexts.HslExec | index.js:366-370 | `exec` of `hsl(hue,s%,l%)` captures the hue with its '.' or '/' fraction, its unit, and the two percentages |
| ParseTexts.InterpretRgb | index.js:587-645 | text the RGB(A) pattern matches is decided by the RGB(A) `process` and the range checks |
| ParseTexts.InterpretHsl | index.js:587-645 | text the HSL(A) pattern matches is decided by the HSL(A) `process` and the range checks |
| ParseTexts.ParseFraction | index.js:371-375 | `parseFloat` of digits and a fraction: a '.' fraction counts, a '/' one is dropped |
| ParseTexts.ParseNoScheme | index.js:647-650 | text that is not eight hex digits and starts with neither 'r' nor 'h' throws "Unable to parse the given color string" |
| ParseTexts.ParseRgbText | index.js:448-466 | `rgb(d1,d2,d3)` is the colour of the three integers with alpha 1, and parses iff no channel exceeds 255 |
| ParseTexts.ParseRgbPercentText | index.js:448-466 | `rgb(p1%,p2%,p3%)` is the range check of the percentages times 255 / 100, with alpha 1 |
| ParseTexts.ParseRgbaText | index.js:448-466 | `rgba(d1,d2,d3,alpha)` is the range check of the integers and the alpha, which is divided by 100 after '%' |
| ParseTexts.ParseHslText | index.js:371-438 | `hsl(hue,s%,l%)` is the range check of the HSL computation on the hue, its unit and the two percentages |
| ParseTexts.ToRGBRoundTrip | index.js:659-663 | `toRGB` text parses back to the colour with rounded channels and alpha 1 |
| ParseTexts.RgbTextsEqual | index.js:659-663 | two `toRGB` texts are equal iff the rounded channels agree |
| PercentTexts.PercentQuadInRange | index.js:452-455 | three percentages scaled by 255 / 100 pass the range checks iff none exceeds 100 |
| PercentTexts.ParseRgbPercentInRange | index.js:448-466 | `rgb(p1%,p2%,p3%)` parses iff no percentage exceeds 100 |
| PercentTexts.ParseRgbPercentColour | index.js:448-466 | `rgb(p1%,p2%,p3%)` with percentages up to 100 is the opaque colour with channels 2.55 times them |
| KnownColors.ParseOpaqueHex | index.js:575-576 | "#" and six hex digits, in any case, parse as the colour of those digits and "ff" |
| KnownColors.RedChannelError | test/test.js:82-87 | `rgb(300, 0, 0)` throws "Unable to parse the red value" |
| KnownColors.GreenChannelError | test/test.js:89-94 | `rgb(0, 300, 0)` throws "Unable to parse the green value" |
| KnownColors.BlueChannelError | test/test.js:96-101 | `rgb(0, 0, 300)` throws "Unable to parse the blue value" |
| KnownColors.AlphaError | test/test.js:103-108 | `rgba(0, 0, 0, 200%)` throws "Unable to parse the alpha value" |
| KnownColors.HexLengthError | test/test.js:110-115 | "#F3" throws "Unable to parse HEX color" |
| KnownColors.CurrentColorError | test/test.js:117-122 | "currentColor" without a context throws |
| KnownColors.UnknownWordError | test/test.js:124-129 | "loodle", not a keyword, throws "Unable to parse the given color string" |
| KnownColors.RedPercent | test/test.js:13 | `rgb(100%,0%,0%)` is red (255, 0, 0, 1) |
| KnownColors.RedHex | test/test.js:11 | "#FF0000" is the same red |
| KnownColors.RebeccaPercent | test/test.js:48 | `rgb(40%,20%,60%)` is rebeccapurple (102, 51, 153, 1) |
| KnownColors.RebeccaHex | test/test.js:46 | "#663399" is the same rebeccapurple |
| KnownColors.RebeccaHue | index.js:366-438 | any `hsl(hue,50%,40%)` whose hue is 270 degrees in its unit is rebeccapurple |
| KnownColors.RebeccaHsl | test/test.js:50 | `hsl(270,50%,40%)` is rebeccapurple |
| KnownColors.RebeccaHslDeg | test/test.js:50 | `hsl(270deg,50%,40%)` is rebeccapurple |
| KnownColors.RebeccaHslGrad | test/test.js:50 | `hsl(300grad,50%,40%)` is rebeccapurple |
| KnownColors.RebeccaHslTurn | test/test.js:50 | `hsl(0.75turn,50%,40%)` is rebeccapurple |
| KnownColors.RebeccaHslSlash | index.js:367 | `hsl(270/5,50%,40%)` is rebeccapurple too: `parseFloat` drops the '/5' the pattern admits |
| KnownColors.Grey | test/test.js:668-675 | `hsl(10,0%,10%)` has channels 25.5, 25.5, 25.5 and alpha 1 |
| KnownColors.GreyText | test/test.js:644 | that grey's `toRGB` is "rgb(26,26,26)" |
| KnownColors.GreyHex | test/test.js:683 | "#1A1A1A" is (26, 26, 26, 1) |
| KnownColors.OffGreyHex | test/test.js:684 | "#1A1A1B" is (26, 26, 27, 1) |
| KnownColors.GreyEqualsHex | test/test.js:683 | the grey equals "#1A1A1A" |
| KnownColors.GreyDiffersHex | test/test.js:684 | the grey does not equal "#1A1A1B" |
| ColorInterpreter.KeywordColor | index.js:1092-1101 | the key `addKeyword` uses: '#' and eight hex digits; an error for an unparsable string or a non-colour |
| ColorInterpreter.HexaLower | index.js:1100-1101 | lower-case `toHEXA` is '#' and the colour's eight digits |
| ColorInterpreter.Added | index.js:1085-1104 | fails for a non-string name or an unresolvable colour; otherwise adds exactly the name and the digits as keys, the name maps to the colour's HEXA text and the digits to the name, and every other entry of both tables is unchanged |
| ColorInterpreter.ReverseKeyShape | index.js:739-745 | every key `toKeyword` looks up is eight hex digits |
| ColorInterpreter.AddedAsWrittenInvisible | index.js:1101 | as written, the added reverse entry is never found by `toKeyword` |
| ColorInterpreter.AddedHexa | index.js:1085-1104 | after `addKeyword(name, c)`, `Color(name).toHEXA()` equals `c.toHEXA()` for a lower-case name |
| ColorInterpreter.AddedKeywordFound | index.js:1085-1104 | with the corrected key, `Color(name).toKeyword()` is the name for an opaque colour |
| ColorInterpreter.KeywordTable.AddKeyword | index.js:1085-1104 | the tables become `Added` of the old ones, with the corrected reverse key; on an error nothing changes |
| ColorInterpreter.Color.Create | index.js:517-651 | the constructor returns a fresh `Color` holding `Parse`'s colour, fixed 2 and valid, or throws `Parse`'s error |
| ColorInterpreter.Color.Substitute | index.js:546-557 | the keyword step is `Resolve` |
| ColorInterpreter.Color.Expand | index.js:560-583 | the HEX step is `ExpandHex` |
| ColorInterpreter.Color.SetFixed | index.js:826-832 | a number sets `fixed` to its integer part toward zero; anything else changes nothing; the channels never change |
| ColorInterpreter.TruncateWhole | index.js:829 | setFixed of a whole number sets that number; a fraction is dropped toward zero |

## Left out

- `Color.hasBrowserSupport` (index.js:1008-1073) probes the DOM of a browser.
- `luminance` (index.js:954-979) needs `Math.pow` with the exponent 2.4 on
  floating point.
- `clone` (index.js:871-873) re-parses `toPercentageRGBA` text. Its value
  depends on how the percentages are rounded, which the model does not pin
  down for the RGB(A) pattern.
- `red`, `green`, `blue` and `alpha` (index.js:880-910) only read a field.
  `isValid` (index.js:840-842) is `Color.IsValid`: it reads `valid`, which
  `Create` always sets. A throwing constructor hands no object back, so
  `valid == false` is never observed.
- The body of the currentcolor resolver (index.js:216-230) reads the computed
  style of a DOM element. It is replaced by the context's colour text.
- The 150 entries of `colors2keywords` and `keywords2colors` (index.js:51-363)
  are not transcribed. The properties hold for any pair of tables. Names that
  objects inherit, such as "constructor", are not modelled as present.
- The stack text of `ColorError` (index.js:1195-1217) is left out. `Error` keeps
  the messages only.
- The JavaScript type probes (index.js:1230-1280) become Dafny types. A value
  that is not a number is `NaN` for `setFixed`. A value that is not a string
  or a Color is `Operand.Other`. A name that is not a string is `None`.
- The constructor's argument is a string. `toString()` of other values is not
  modelled.
- Numbers are exact rationals, not IEEE-754 doubles. `toFixed` rounds halves
  up on the exact value. A double can round the other way near a tie, and
  `255.0 / 255.0`-style results are exact here.
- Case mapping covers the ASCII letters only; other characters keep their
  case.
- `Math.PI` is the 16-digit constant `Schemes.Pi`, so hues in `rad` are
  exact multiples of 180 / `Schemes.Pi`.
- Numbers.To360Degrees: modelled over exact rationals. The floating-point
  loop that never ends for a hue beyond 2^53 is not modelled.
- ColorInterpreter.Color.SetFixed: `parseInt` of a number below 1e-6 or from
  1e21 on reads its exponent notation ("1e-7" gives 1). The model truncates
  instead, and Infinity is not a value of `Num`.
- Parser.Parse: the text lemmas cover `rgb(d1,d2,d3)`, `rgb(p1%,p2%,p3%)` with
  whole percentages, `rgba(d1,d2,d3,alpha)` with integer channels and
  `hsl(hue,s%,l%)` with whole percentages and no alpha. Each form is a sum of
  many matcher steps, and every further form needs its own layout proof.
  Texts with white space between the parentheses and the fields, such as the
  test suite's `hsl(     10, 0% ,10%   )`, percentage RGBA texts such as
  `rgba(100%,0%,0%,0)`, `hsla(...)` and fractional percentages in a text are
  left out for that reason. `KnownColors.Grey` states the spacing-free
  `hsl(10,0%,10%)`.
- Parser.ExpandHex: lengths count Unicode characters, where `substr` and
  `length` (index.js:562-563) count UTF-16 code units. A '#' text with a
  character outside the Basic Multilingual Plane, such as "#😀a", is
  "Unable to parse HEX color" here. The program expands it and then throws
  "Unable to parse the given color string". Only the kind of error differs.
- ColorInterpreter.Color.Expand: the same counting of Unicode characters
  rather than UTF-16 code units, since it computes `ExpandHex`.
- ColorInterpreter.KeywordTable.AddKeyword: writes the reverse entry under the
  eight digits without '#' (`Added`), not under `toHEXA().toLowerCase()` as
  index.js:1101 does; `AddedAsWritten` models the line as written (see
  "## Findings").
- Text.ToUpper and Text.ToLower: ASCII only, as above.

## Findings

| source | as written | input that shows it | evidently intended | confidence | as-written member | corrected member |
|---|---|---|---|---|---|---|
| index.js:1101 | `addKeyword` writes the reverse entry under `toHEXA().toLowerCase()`, which keeps the '#'. `toKeyword` (index.js:739-745) looks up six digits and "ff" without '#'. | `addKeyword("loodle", "#6cbb65")`, then `Color("loodle").toKeyword()` gives "" instead of "loodle" | the reverse key is the eight digits without '#', like the built-in entries; then an opaque added keyword is named again | not executed | ColorInterpreter.AddedAsWrittenInvisible | ColorInterpreter.AddedKeywordFound |
