# format.js in Dafny

A model of the two template engines of format-js (`format.js`), with proofs
of what they promise.

- **`format(msg, ...args)`** (format.js:4-99) is the f-string-like formatter.
  It replaces each placeholder `{idx}` or `{idx:[align][width][.precision]key}`
  by the argument at `idx`, converted by one of twelve keys and padded. A
  missing argument becomes `"undefined"`. A `{` that starts no placeholder is
  copied.
- **`DateLikeFormatter`** (format.js:102-148) is a class.
  - Its constructor stores a handler table and builds the pattern
    `(mark+)(key1|key2|…)`.
  - Its `format` replaces a run of N marks followed by a key. When N is even
    the output is `floor(N/2)` marks, then the key itself. When N is odd the
    code (format.js:145) returns the handler's text alone and drops the
    `floor(N/2)` marks it computed; format.test.js:60 expects them in front.
    The model keeps both readings and uses the one the test expects (see
    "## Findings").
- **`DefaultDateFormatter` and `format_date`** (format.js:150-183) are that
  class with mark `%`. The table has thirteen handlers over the fields of a
  date.

Files:

- `results.dfy` (module `Results`): `Option`, `Result`, and `Prefix`, which
  puts a replacement in front of the rendering of the rest.
- `text.dfy` (module `Text`): digit strings as `Number.prototype.toString(radix)`
  and `toFixed(0)` write them for integers, reading them back, ASCII
  `toUpperCase`, JavaScript's `length` in UTF-16 code units, and
  `padStart`/`padEnd`, which pad up to a width counted in those units.
- `fstring.dfy` (module `FString`): `format`.
  - A deterministic scanner `ParseField` stands in for the regular expression
    `ArgExp`.
  - `Render` is the specification of the whole call. The method `Format` is
    the left-to-right scan with an accumulator, proved equal to `Render`.
- `datelike.dfy` (module `DateLike`): the class `DateLikeFormatter`.
  - Its fields are `mark`, `routing` and `re`, the source text of the
    pattern.
  - `Expand` is the specification of `replaceAll` with the callback.
  - The method `Format` scans the message, proved equal to `Expand` over the
    alternatives read back from `re`.
- `default_date.dfy` (module `DefaultDate`): the default handlers, the table,
  `format_date`, and the expected outputs of format.test.js:55-69.

How the model represents the source:

- Arguments of `format` are `Value = Int(n) | Str(s)`, with `n` a JavaScript
  safe integer.
- Strings are sequences of Unicode scalar values. `JsLength` counts two
  UTF-16 code units for a character outside the Basic Multilingual Plane, one
  for any other, as JavaScript's `length` does.
- A `Date` is a `DateFields` record of what its getters return. The type
  `CalendarDate` bounds each field to its range.
- The JavaScript built-ins behind the floating-point and code-point keys are
  `toFixed`, `toExponential` and `String.fromCodePoint`. They are a
  parameter, `ext: External`, which returns `None` where the built-in throws.
- The handler table is the sequence of `Object.entries(routing)`. Lookup
  finds the first entry with the key, as `Map.get` does for distinct keys.

## Model

| member | source | states |
|---|---|---|
| Text.Digits | format.js:44 | The digits of a natural number in a radix from 2 to 16: at least one, all below the radix, lower-case, decimal when the radix is 10, and a leading `0` only for zero. |
| Text.ReadDigitsOfDigits | format.js:44 | Reading the digits of n back in the same radix gives n. |
| Text.RadixRoundTrip | format.js:44 | `toString(radix)` of any integer is a signed numeral that reads back as the integer. |
| Text.DigitsLength | format.js:155 | For k ≥ 1, a number below base^k has at most k digits. |
| Text.AsciiUpper | format.js:59 | `toUpperCase` keeps the length, leaves no lower-case ASCII letter, and each character equals the input's up to case. |
| Text.UpperKeepsValue | format.js:59 | Upper-casing a numeral does not change the number it denotes. |
| Text.UpperSignedKeepsValue | format.js:59 | The same for a numeral with a minus sign. |
| Text.JsLength | format.js:92 | `length` counts between \|s\| and 2·\|s\| UTF-16 code units. |
| Text.JsLengthBmp | format.js:92 | `length` equals the number of characters exactly when every character is in the Basic Multilingual Plane. |
| Text.JsLengthAppend | format.js:92 | The `length` of a concatenation is the sum of the lengths. |
| Text.PadStart | format.js:92 | `padStart` gives `length` max(length(s), width): the fill characters, as many as the added code units, then s. |
| Text.PadEnd | format.js:84 | `padEnd` gives `length` max(length(s), width): s, then the fill characters, as many as the added code units. |
| Text.PadWithin | format.js:84-92 | Text whose `length` already reaches the width is returned unchanged by `padStart` and `padEnd`. |
| Text.PadStartBmp | format.js:153-172 | On text in the Basic Multilingual Plane, such as a numeral, the padded text has max(\|s\|, width) characters. |
| Text.DecimalRoundTrip | format.js:153-172 | `toFixed(0)` of a natural number is a non-empty unsigned decimal numeral reading back as the number. |
| Text.ReadDigitsLeadingZeros | format.js:155 | Zeros in front of a numeral do not change the number it denotes. |
| Text.ZeroPadded | format.js:155 | `toFixed(0).padStart(w, "0")` of n is all digits and reads back as n; it has max(number of digits of n, w) digits, so exactly w digits when w ≥ 1 and n < 10^w. |
| FString.KeyChar | format.js:4 | Each of the twelve keys has a character that reads back as that key, and that character is neither a digit nor `.`. |
| FString.AlignChar | format.js:4 | Each alignment has a character that reads back as it, and that character is neither a key, a digit nor `.`. |
| FString.DigitSpan | format.js:4 | The `[0-9]*` match: all digits, within the text, and not followed by a digit. |
| FString.ParseField | format.js:4 | A match is at least 3 characters long, within the text, and starts with `{` and ends with `}`. |
| FString.ParseFieldWord | format.js:4 | Completeness: every word of the grammar of `ArgExp` (any digits as index and width, leading zeros included) is matched, whatever follows, with its full length and the field its groups mean. |
| FString.ParseFieldSound | format.js:4 | Soundness: every match is a word of the grammar, and the field read is what that word's groups mean. |
| FString.ParseFieldExactly | format.js:4 | The scanner matches n characters as field f if and only if those n characters are a word of the grammar meaning f. |
| FString.ParseFieldNone | format.js:4 | The scanner finds no placeholder if and only if no word of the grammar starts the text. |
| FString.ParseSpecWord | format.js:4 | Completeness for the part after the colon: align, width, precision and key are read back as their groups mean, with the length of their text. |
| FString.LeadingZeros | format.js:4 | `{00}` is argument 0 over 4 characters; `{0:04.02d}` has width 4, precision 2 and key `d` over 10 characters. |
| FString.ParseFieldUnparse | format.js:4 | Round trip: the canonical text of any field is matched back to that field, with its full length, whatever follows it. |
| FString.ParseSpecUnparse | format.js:4 | Round trip for the part after the colon: the align, width, precision and key are read back, with the length of their text. |
| FString.ColonWithoutKeyIsText | format.js:4 | `{idx:}` and `{idx:width}` have no format key, so they are not placeholders and are returned unchanged. |
| FString.AlignField | format.js:80-95 | The result has `length` max(length(vv), w) in UTF-16 code units and equals vv when w ≤ length(vv); `<` puts vv before the spaces; `>` or no align puts the spaces before vv. |
| FString.CenterWithin | format.js:87 | `^` pads to `length` max(length(vv), w), and leaves vv unchanged when w ≤ length(vv). |
| FString.CenterAlign | format.js:87 | `^` puts max(0, floor(w/2) − length(vv)) spaces in front of vv, then spaces behind up to w, counting UTF-16 code units. |
| FString.IntegerKeys | format.js:43-59 | `b o x X d` write an integer in base 2, 8, 16, 16 and 10, and the text reads back as the integer; a string argument is refused. |
| FString.HexCase | format.js:55-59 | `X` is the upper-casing of `x`; `x` holds no upper-case letter and `X` no lower-case one. |
| FString.Format | format.js:13-99 | The scan with an accumulator returns exactly `Render` of the template and arguments, including the first failure. |
| FString.RenderWord | format.js:4-25 | Any placeholder the grammar accepts, leading zeros included, is replaced by the replacement of the field its groups mean, and the scan continues right after it. |
| FString.MissingArgumentWord | format.js:26-30 | Any accepted placeholder whose index (as `parseInt` reads it) has no argument becomes exactly `undefined`, whatever its spec. |
| FString.PlainWord | format.js:32-34 | Any accepted `{idx}` becomes the argument's `toString()`, unpadded; for an integer, that text reads back as the integer. |
| FString.OneWord | format.js:13-14 | A template that is one accepted placeholder renders to that placeholder's replacement. |
| FString.LeadingZeroMissing | format.js:26-30 | `{00}` with no arguments gives `undefined`. |
| FString.BraceBeforePlaceholder | format.js:4-14 | A `{` that starts no placeholder is copied and the placeholder after it is replaced: `{{0}` with 5 gives `{5`. |
| FString.RenderField | format.js:13-25 | The same as RenderWord for a placeholder in its standard spelling (no leading zeros). |
| FString.MissingArgument | format.js:26-30 | The same as MissingArgumentWord for a placeholder in its standard spelling. |
| FString.PlainPlaceholder | format.js:32-34 | The same as PlainWord for `{idx}` in its standard spelling. |
| FString.RenderUnmatched | format.js:13-14 | Text in which no position starts a placeholder is returned unchanged. |
| FString.RenderWithoutPlaceholders | format.js:13-14 | Text in which no position starts a word of the grammar is returned unchanged. |
| FString.RenderWithoutBraces | format.js:13-14 | A template without `{` is returned unchanged. |
| FString.OneField | format.js:13-14 | The same as OneWord for a placeholder in its standard spelling. |
| FString.DigitPlaceholder | format.js:32-34 | `{i}` for a one-digit index i with an argument gives that argument's `toString()`, followed by the rest rendered. |
| FString.PlainTestCases | format.test.js:12-16 | `{0}` with 2 gives "2"; `{0}` with no argument gives "undefined"; `{1} {0}` with "a", "b" gives "b a". |
| FString.WidthTestCase | format.test.js:17 | `{0:4d}` with 2 gives "   2". |
| FString.HexTestCase | format.test.js:20 | `{0:x}` with 15 gives "f". |
| FString.HexUpperTestCase | format.test.js:21 | `{0:X}` with 15 gives "F". |
| FString.OctalTestCase | format.test.js:22 | `{0:o}` with 8 gives "10". |
| FString.BinaryTestCase | format.test.js:23 | `{0:b}` with 3 gives "11". |
| FString.LeftTestCase | format.test.js:24 | `{0:<4d}` with 1 gives "1   ". |
| FString.CenterTestCase | format.test.js:25 | `{0:^4d}` with 1 gives " 1  ". |
| FString.RightTestCase | format.test.js:26 | `{0:>4d}` with 1 gives "   1". |
| FString.AstralPaddingCase | format.js:92 | `{0:3s}` with an emoji outside the Basic Multilingual Plane gives one space and the emoji, since the emoji is already 2 code units long. |
| FString.AstralInThree | format.js:92 | Padding that emoji to width 3 adds one space, giving 2 characters, not 3. |
| DateLike.LookupSpec | format.js:117 | `routing.get(key)` finds a handler exactly when the key is in the table, and that handler belongs to an entry with that key. |
| DateLike.LookupAt | format.js:117 | With distinct keys, looking up an entry's key finds that entry's handler. |
| DateLike.Alternatives | format.js:119-120 | There is one alternative per key, in table order: removing the `(?:…)` wrapper from the i-th alternative gives the i-th key. |
| DateLike.UnwrapAlternative | format.js:120 | Removing the `(?:…)` wrapper from an alternative gives back its key, whether or not the key's `length` is 1. |
| DateLike.SplitJoin | format.js:120 | Splitting a `join("\|")` of bar-free pieces at the bars gives back the pieces. |
| DateLike.PatternRoundTrip | format.js:119-121 | Reading the alternatives back from the pattern source gives the keys in table order. An empty table gives the single empty alternative. |
| DateLike.FirstAlternativeSpec | format.js:121 | Regex alternation: the matched key is a prefix of the rest of the message, and no earlier key is; no match means no key is a prefix. |
| DateLike.RunLengthSpec | format.js:121 | `(mark+)` takes the maximal run: every character in the run is the mark, and the next one is not. |
| DateLike.RunLengthOf | format.js:121 | A run of n marks not followed by a mark has length exactly n. |
| DateLike.Directive | format.js:121 | A directive has at least one mark, names one of the alternatives, and lies within the message. |
| DateLike.DateLikeFormatter.constructor | format.js:108-122 | The formatter keeps the mark and the table, and its pattern source is `(mark+)(alternatives)` built from the table's keys. |
| DateLike.ValidAlternatives | format.js:119-121 | The pattern of a constructed formatter has exactly the table's keys as alternatives. |
| DateLike.DateLikeFormatter.Format | format.js:129-147 | The scan returns exactly `Expand` of the message over the pattern's alternatives, with the escaping the tests expect. |
| DateLike.MarkRun | format.js:121 | The loop counting marks returns the length of the maximal run at the start of the text. |
| DateLike.EscapeParity | format.js:133-145 | N marks and a key give floor(N/2) marks, then the key (N even) or the handler's text (N odd), then the rest expanded. |
| DateLike.EscapeParityAsWritten | format.js:133-145 | As written, N odd gives the handler's text alone, without the floor(N/2) marks. |
| DateLike.UnmatchedRun | format.js:130-131 | A run of marks followed by no key is copied as it is. |
| DateLike.ExpandAppend | format.js:130-131 | Text without the mark in front of a message is copied, and the rest is expanded on its own. |
| DateLike.ExpandWithoutMark | format.js:130-131 | A message without the mark is returned unchanged. |
| DateLike.ExpandNeverFails | format.js:140-143 | When every alternative has a handler, `Unknown Format` is never thrown. |
| DateLike.FormatNeverFails | format.js:140-143 | A formatter built from a non-empty table never throws. |
| DateLike.EmptyTableRejectsLoneMark | format.js:119-121 | With an empty table the key group `()` matches the empty string, so a lone mark throws `Unknown Format`. |
| DateLike.FirstSingleChar | format.js:119-121 | With one-letter keys, the key matched is the one naming the next character. |
| DefaultDate.YearRem | format.js:153 | `year % 100` with the sign of the year, as JavaScript's `%` gives it. |
| DefaultDate.YearTwoDigits | format.js:153 | `y` reads back as year % 100; for a year ≥ 0 it is two digits. |
| DefaultDate.Year | format.js:154 | `Y` is a decimal reading back as the year, four digits for years 0 to 9999, and max(4, number of digits) characters for any year ≥ 0. A negative year is zero-filled in front of its minus sign, as `padStart` does (−5 gives `00-5`). |
| DefaultDate.YearUnpadded | format.js:154 | From year 1000 on, `Y` is exactly the year's decimal form: `padStart` adds no zero, so year 12345 gives `12345`. |
| DefaultDate.Month | format.js:155 | `m` is two digits reading back as month0 + 1. |
| DefaultDate.Day | format.js:156 | `d` is two digits reading back as the day. |
| DefaultDate.Hours | format.js:157 | `H` is two digits reading back as the hour. |
| DefaultDate.Hours12 | format.js:158-164 | `I` is two digits reading back as an hour from 1 to 12, congruent to the hour modulo 12. |
| DefaultDate.MeridiemAsWritten | format.js:165 | As written, `p` is "AM" exactly when the hour is ≤ 12. |
| DefaultDate.Meridiem | format.js:165 | The table's `p`: "AM" exactly when the hour is < 12, otherwise "PM". |
| DefaultDate.Minutes | format.js:166 | `M` is two digits reading back as the minutes. |
| DefaultDate.Seconds | format.js:167 | `S` is two digits reading back as the seconds. |
| DefaultDate.EpochSecondsRounding | format.js:168 | `s` has a `-` exactly when the time is before the epoch. Its digits are the seconds rounded half away from zero: 1000q − 500 ≤ \|time\| < 1000q + 500. |
| DefaultDate.Milliseconds | format.js:169 | `f` is three digits reading back as the milliseconds. |
| DefaultDate.TimeLayout | format.js:170-172 | `T` is 8 characters `HH:MM:SS`, whose parts read back as the hour, minutes and seconds. |
| DefaultDate.Weekday | format.js:173 | `w` is one decimal digit reading back as the weekday. |
| DefaultDate.ClockRoundTrip | format.js:158-165 | `I` and the table's `p` together give back the hour on the 24-hour clock. |
| DefaultDate.MidnightNoonAsWritten | format.js:158-165 | As written, any time at hour 0 and any time at hour 12 both give `I` = "12" and `p` = "AM". |
| DefaultDate.TwelveOnTheClock | format.js:158-164 | Hours 0 and 12 both give `I` = "12". |
| DefaultDate.ClockHour | format.js:158-164 | The hour on the 12-hour clock is from 1 to 12 and congruent to the hour modulo 12. |
| DefaultDate.DefaultTablePlain | format.js:150-175 | The default table's keys are `y Y m d H I p M S s f T w` in that order, each one distinct letter, none of them `%` or a regex metacharacter. |
| DefaultDate.FormatDate | format.js:183 | `format_date` never throws and returns the expansion of the message with the default table. |
| DefaultDate.YearTestCase | format.test.js:55 | `%Y` on 23 April 2024 gives "2024". |
| DefaultDate.YearTwoDigitsTestCase | format.test.js:56 | `%y` gives "24". |
| DefaultDate.MonthTestCase | format.test.js:57 | `%m` gives "04". |
| DefaultDate.DayTestCase | format.test.js:58 | `%d` gives "23". |
| DefaultDate.EvenRunTestCase | format.test.js:59 | `%%d` gives "%d". |
| DefaultDate.OddRunTestCase | format.test.js:60 | `%%%d` gives "%23" with the corrected escaping. |
| DefaultDate.OddRunAsWritten | format.js:145 | As written, `%%%d` gives "23". |
| DefaultDate.DirectiveThen | format.js:133-145 | One mark and a key of the default table give that key's handler text, then the rest expanded. |
| DefaultDate.YearMonthDayTestCase | format.test.js:61 | `%Y%m%d` gives "20240423". |
| DefaultDate.SlashedDateTestCase | format.test.js:62 | `%Y/%m/%d` gives "2024/04/23". |
| DefaultDate.HoursTestCase | format.test.js:63 | `%H` at 13:05:02.033 gives "13". |
| DefaultDate.Hours12TestCase | format.test.js:64 | `%I` gives "01". |
| DefaultDate.MinutesTestCase | format.test.js:65 | `%M` gives "05". |
| DefaultDate.SecondsTestCase | format.test.js:66 | `%S` gives "02". |
| DefaultDate.MillisecondsTestCase | format.test.js:67 | `%f` gives "033". |
| DefaultDate.MeridiemTestCase | format.test.js:68 | `%p` gives "PM". |
| DefaultDate.TimeTestCase | format.test.js:69 | `%T` gives "13:05:02". |

## Left out

- The keys `c e E f F %` (format.js:46-47 and 61-75) use floating-point and
  UTF-16 built-ins. They are delegated to the `External` parameter. The model
  states only that the result is what the built-in gives and that `E` and `F`
  upper-case it.
  - This follows the code, not format.test.js:27-31. For `%`, format.js:74
    appends no `%` sign. `toFixed` writes `Infinity` and `NaN`.
  - The default precision of 6 (format.js:7, 37) is modelled and passed to
    the built-in.
- Non-integer numbers, and objects other than strings, are out of scope as
  arguments. Their `toString()` (for example `[object Object]`,
  format.test.js:15) and `Math.round` are left out.
- `b o x X d` applied to a string argument are modelled as a failure. In
  JavaScript, `Math.round` coerces the string for `b o x X`, and `toFixed`
  throws a TypeError for `d`.
- A width too large for `padStart` raises a RangeError. This is not modelled:
  widths are unbounded naturals.
- `DateLike.DateLikeFormatter.constructor` requires plain keys and mark: no
  regex metacharacter in the mark or in any key, no mark inside a key, and
  distinct keys. Other tables build patterns with a meaning of their own,
  which is not modelled.
- The mark checks at format.js:109-114 create an `Error` without throwing it,
  so they reject nothing. The model requires (in `Plain`) the mark to be one
  UTF-16 code unit, as format.js:112 asks: an astral mark would make `(m+)`
  repeat only its low surrogate, which is not modelled.
- Keys are compared as sequences of Unicode scalar values, not of UTF-16 code
  units. The two agree on well-formed strings; lone surrogates are not
  modelled.
- Text.AsciiUpper: only ASCII letters are upper-cased. Its inputs are
  numerals, hexadecimal digits and the output of the `External` built-ins.
- `Object.entries` puts integer-like keys first. The table here is already
  in entry order.
- Handlers are total functions. A handler that throws is left out.
- Time zones and the consistency of the date fields with one another are not
  modelled. The fields are taken as the getters return them.
- `FStringLikeFormatter`, `patch_default_format` and the other patching
  functions are declared in format.d.ts but have no implementation in
  format.js. They are not part of this model.
- The module's exports (format.js:185) are not modelled.
- DefaultDate.EpochSeconds: stated through `EpochSecondsRounding`. It assumes
  that the quotient `time / 1000` rounds the same as the exact rational for
  times within the Date range (|time| ≤ 8.64·10^15).

## Findings

| source | as written | input that shows it | evidently intended | confidence | as-written member | corrected member |
|---|---|---|---|---|---|---|
| format.js:145 | An odd run returns `f(v)` alone, so the floor(N/2) escaped marks computed at format.js:134 are lost. | `format_date("%%%d", new Date(2024, 3, 23))` gives "23"; format.test.js:60 expects "%23". | `esc + f(v)`, as EscapeParity states. | high (not executed) | DateLike.EscapeParityAsWritten, DefaultDate.OddRunAsWritten | DateLike.EscapeParity, DefaultDate.OddRunTestCase |
| format.js:165 | `p` is "AM" for hours ≤ 12, so 12:00–12:59 is "AM". With `I` mapping hours 0 and 12 to "12", midnight and noon print the same. | Hours 0 and 12 both give `%I %p` = "12 AM". | "AM" for hours < 12, so that `I` and `p` give back the hour (ClockRoundTrip). | high (not executed) | DefaultDate.MeridiemAsWritten, DefaultDate.MidnightNoonAsWritten | DefaultDate.Meridiem, DefaultDate.ClockRoundTrip |

The class `DateLikeFormatter` and `format_date` use the corrected escaping.
The default table uses the corrected `p`.
