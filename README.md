# Hex colour parser of the post-it board

The post-it board (`src/app.ts`) is a mixed-reality extension that fetches
posts from an HTTP API and shows each one as a coloured, clickable sticky
note. Every post carries its colour as a string. `PostItApp.hexToRgb` turns
that string into an `MRE.Color4`. It matches the string against
`^#?([a-f\d]{2})([a-f\d]{2})([a-f\d]{2})$` with only the `u` flag, so the
match is case-sensitive. It reads each captured pair with `parseInt(_, 16)`,
divides it by 255 and sets alpha to 1. A string that does not match gives
`null`.

This project models that parser in Dafny and proves which strings it accepts
and what it returns for them.

- `wrappers.dfy`: `Option`, which stands for the `null` that `hexToRgb` returns.
- `hex_digits.dfy` (module `HexDigits`): the digit class `[a-f\d]`, base-16
  reading of a run of digits (`ParseHex`, which is `parseInt(_, 16)` on the
  runs the regular expression captures) and its inverse `FormatHex`.
- `hex_color.dfy` (module `HexColor`): the matcher (`MatchGroup`,
  `MatchFrom`, `Exec`). `Exec` includes the backtracking of the greedy `#?`.
  The module also has an independent description of the accepted strings
  (`Accepts`), the parser `HexToRgb` and the lemmas about it.

`HexToRgb` returns the integer numerators (0..255) of the red, green and
blue components, not the quotients. The alpha field is the component itself,
which is always 1. `Component` gives the quotient `n / 255` as an exact
rational.

## Model

| member | source | states |
|---|---|---|
| `HexDigits.DigitValue` | src/app.ts:57-59 | a digit of the class `[a-f\d]` has a base-16 value below 16, and the value is below 10 exactly for `0`-`9` |
| `HexDigits.ClassIsAlphabet` | src/app.ts:55 | the class `[a-f\d]` (`IsHexDigit`) is exactly the sixteen characters `0123456789abcdef`, and excludes upper-case `A`-`F` |
| `HexDigits.RunIsAlphabet` | src/app.ts:55 | a run is all digits of the class (`AllHexDigits`) exactly when each of its characters is one of those sixteen |
| `HexDigits.DigitCharValue` | src/app.ts:57-59 | the lower-case digit written for a value below 16 is that value's place in `0123456789abcdef`, and reads back as the value |
| `HexDigits.DigitValueChar` | src/app.ts:57-59 | every digit of the class is the one written for its own value |
| `HexDigits.ParseHex` | src/app.ts:57-59 | a run of n digits reads as a value below 16^n; on the two-digit runs `hexToRgb` passes, this is `parseInt(ds, 16)` |
| `HexDigits.ParsePair` | src/app.ts:57-59 | a captured pair `hi lo` reads as `PairValue(hi, lo)` = 16·hi + lo, which is below 256 |
| `HexDigits.ParseFormat` | src/app.ts:57-59 | reading back a value written as n lower-case digits gives the value |
| `HexDigits.FormatParse` | src/app.ts:57-59 | writing a read run at its own width gives the run back, so a value has exactly one lower-case spelling |
| `HexColor.MatchFrom` | src/app.ts:55 | the three groups followed by `$` match from a position exactly when the rest of the input is six digits of the class, and capture its consecutive pairs |
| `HexColor.Exec` | src/app.ts:55 | the whole pattern, with each group tried by `MatchGroup`, captures on success three groups of two digits of the class each |
| `HexColor.AcceptsShape` | src/app.ts:55 | `Accepts` holds exactly when, after an optional leading `#`, the rest of the input is six digits of the class |
| `HexColor.ExecAccepts` | src/app.ts:55 | the regular expression, with the backtracking of `#?`, matches exactly the strings made of an optional `#` and six characters of `0-9a-f`, and captures the three consecutive digit pairs |
| `HexColor.HexToRgb` | src/app.ts:54-61 | the parser returns a colour exactly for accepted strings and `null` otherwise; on success alpha is 1 and each channel is below 256 |
| `HexColor.ChannelMapping` | src/app.ts:55-60 | red is read from hex digits 1-2, green from 3-4 and blue from 5-6, each in base 16, after an optional `#`; alpha is 1 |
| `HexColor.AcceptedLength` | src/app.ts:55 | an accepted string has length 6, or length 7 exactly when it starts with `#` |
| `HexColor.HashOptional` | src/app.ts:55 | six lower-case digits parse, and parse to the same colour with a `#` in front |
| `HexColor.RejectsForeignCharacter` | src/app.ts:55 | any character outside `0-9a-f`, other than a `#` at the very start, makes the parser return `null` |
| `HexColor.UppercaseRejected` | src/app.ts:55 | an upper-case `A`-`F` anywhere makes the parser return `null`, because the expression has no `i` flag |
| `HexColor.UppercaseExample` | src/app.ts:55-60 | `#FF0000` gives `null` while `#ff0000` gives red 255, green 0, blue 0, alpha 1 |
| `HexColor.Component` | src/app.ts:57-59 | a channel divided by 255 lies in [0, 1], and is 1 exactly for 255 |
| `HexColor.FormatThenParse` | src/app.ts:55-60 | three bytes written as six lower-case digits, with or without `#`, parse back to the same bytes with alpha 1 |
| `HexColor.ParseThenFormat` | src/app.ts:55-59 | an accepted string is the lower-case spelling of the colour it parses to, with `#` exactly when it had one |

## Left out

- Everything in `src/app.ts` outside `hexToRgb` is not modelled: the HTTP
  fetch of the post list and its JSON decoding, and the creation of actors,
  meshes, materials, labels and click handlers in the host runtime. They are
  network I/O and calls into a runtime whose behaviour is not visible here.
  The note click handler at src/app.ts:125-127 is empty.
- The note layout arithmetic (post position divided by the canvas size) is
  not modelled. It is floating-point arithmetic that only feeds the host
  runtime.
- `HexColor.Component`: the division by 255 is exact rational arithmetic, not
  an IEEE double. `MRE.Color4` is a type of the host runtime and is not part
  of this model. For 0..255 both give values in [0, 1].
- `HexDigits.ParseHex` models `parseInt(_, 16)` only on the runs of
  lower-case digits that the expression captures. Its handling of
  whitespace, signs, a `0x` prefix, upper-case digits and trailing junk is
  not modelled. Nor are two cases where `parseInt` differs from `ParseHex`:
  the empty run gives `NaN` rather than 0, and a run of more than 13 digits
  gives a rounded double that need not be below 16^n. `hexToRgb` never
  reaches any of these cases.
- The input is modelled as a sequence of characters, which is the string
  that `RegExp.prototype.exec` gets by applying ToString to `hex`. The
  colour comes from untyped JSON (src/app.ts:95-101) and may not be a
  string; the conversion itself is not modelled. `undefined` and `null`
  become `"undefined"` and `"null"`, which never match. A number or an array
  whose string form is six lower-case digits does match: the number
  `112233` gives red 17, green 34, blue 51, and so does `["112233"]`. The
  `u` flag's code-point reading makes no difference, because every accepted
  character is ASCII.
