# Time Since — shortcode handler model

The Time Since plugin registers a `[time-since]` shortcode. Its handler,
`TimeSince::shortcode_time_since`, takes the shortcode's attributes (`y`, `m`,
`d`, `title`), checks the year, builds a target date, asks the date library
for the calendar difference between now and that date, and returns
`<h2>title</h2>` followed directly by `Y Year(s), M Month(s), D Day(s)`. When a
check fails it returns one of four fixed messages instead.

This project models that handler as pure Dafny functions:

- `php_strings.dfy` (module `PhpStrings`): the PHP conversions the handler
  relies on. These are `is_numeric` on decimal integers, the `(int)` cast, and
  the decimal text of an integer produced by `.` concatenation. The module
  proves the text reads back as the integer it came from.
- `time_since.dfy` (module `TimeSince`): the three label helpers, `title_string`,
  the four checks on `y` in their order, the `m`/`d` defaults, and the
  composition of the output.
- `readback.dfy` (module `Readback`): an independent parser for the interval
  text with its own statement of the pluralisation rule. It proves that the
  rendered interval is recovered exactly from the handler's output, and that
  different intervals never render alike.

The clock and the date library are parameters. `currentYear` stands for
`date('Y')`. `diff: Date -> Interval` stands for
`(new DateTime($now))->diff(new DateTime("$y-$m-$d"))`, seen through the
`y`, `m` and `d` fields that the handler prints.

## Behaviour of the code worth noting

- An empty `y` attribute is present for `isset`, so it is reported as
  "Year must be numeric.", not "Year is required.".
- Nothing separates `</h2>` from the year count.
- A count of zero takes the plural label, for days as well ("0 Days").

## Model

| member | source | states |
|---|---|---|
| `TimeSince.YearLabel` | time-since.php:48-54 | "Year," exactly when the count is 1; "Years," for 0 and for every count above 1 |
| `TimeSince.MonthLabel` | time-since.php:63-69 | "Month," exactly when the count is 1; "Months," for 0 and for every count above 1 |
| `TimeSince.DayLabel` | time-since.php:78-84 | "Day" exactly when the count is 1; "Days" for 0 and for every count above 1 |
| `TimeSince.LabelSeparators` | time-since.php:48-84 | year and month labels end in a comma; the day label holds no comma |
| `TimeSince.TitleString` | time-since.php:93-95 | the markup is "<h2>", the title verbatim (unescaped), then "</h2>"; its length is the title's plus 9 |
| `TimeSince.FormatInterval` | time-since.php:137 | the interval text starts with a digit, so no space follows the heading |
| `TimeSince.Render` | time-since.php:137 | the output starts with the whole title markup, then directly a digit of the year count |
| `TimeSince.ValidateYear` | time-since.php:104-121 | each of the four messages is returned exactly when its check fails and all earlier checks pass; acceptance holds exactly when all four pass, and the year is then the cast of `y`, between -999 and the current year |
| `TimeSince.AcceptedYear` | time-since.php:104-118 | the year passes all four checks: present, numeric, 4 characters, cast not above the current year; its value is then between -999 and the current year |
| `TimeSince.OptionalInt` | time-since.php:124-125 | an absent `m` or `d` defaults to 1; a present one gives its `(int)` cast, which for an unsigned numeric value is its decimal value |
| `TimeSince.TargetDate` | time-since.php:121-130 | the target date carries the validated year, and the cast `m` and `d` when present, 1 when absent |
| `TimeSince.TitleAttribute` | time-since.php:137 | the title is the `title` attribute, or the empty string when it is absent |
| `TimeSince.PresentMonthDayCast` | time-since.php:124-130 | a present `m` or `d` reaches the date through the cast: "abc" gives month 0 and "3rd" gives day 3 |
| `TimeSince.ShortcodeTimeSince` | time-since.php:102-138 | a missing `y` always gives "Year is required."; the output is a rejection message exactly when a check fails, and starts with "<h2>" exactly when all pass; on success it is the title markup followed by the interval the date library gives for the target date |
| `TimeSince.RejectionIsNotMarkup` | time-since.php:104-118 | none of the four rejection messages starts with "<h2>", so a rejection is never mistaken for markup |
| `TimeSince.MissingYearFirst` | time-since.php:104-106 | without `y`, the result is the same whatever the other attributes, the current year and the date library |
| `TimeSince.EmptyYearIsNotNumeric` | time-since.php:104-110 | an empty `y` passes the presence check and fails the numeric one |
| `TimeSince.NumericCheckBeforeLength` | time-since.php:108-114 | "abcd" has four characters and is still rejected as non-numeric |
| `TimeSince.LengthIsStringLength` | time-since.php:112-114 | "999" and "20345" are rejected as not 4 digits, whatever the current year |
| `TimeSince.LeadingZeroYearAccepted` | time-since.php:112-125 | "0999" passes the length check and is used as the year 999 |
| `TimeSince.CurrentYearBoundary` | time-since.php:116-118 | a year equal to the current year is accepted; the next year is rejected as in the future |
| `PhpStrings.NatToString` | time-since.php:137 | an interval count prints as a nonempty digit string without leading zeros: 0 prints as "0" |
| `PhpStrings.NatToStringRoundTrip` | time-since.php:137 | the printed digits of a count have that count as their value |
| `PhpStrings.NatToStringInjective` | time-since.php:137 | distinct counts print differently |
| `PhpStrings.DigitPrefix` | time-since.php:121 | the cast reads the longest leading run of digits and stops at the first non-digit |
| `PhpStrings.IsNumeric` | time-since.php:108 | a string is numeric exactly when, after an optional sign, it is nonempty and the cast's digit run covers all of it |
| `PhpStrings.IntCast` | time-since.php:121-125 | a string with no digit after its optional sign casts to 0; a leading '-' gives a value at most 0, and anything else a value at least 0; the value itself is stated by CastStopsAtNonDigit and NumericCast |
| `PhpStrings.CastStopsAtNonDigit` | time-since.php:121-125 | an optional sign, digits, then a non-digit or the end cast to the signed value of the digits: "3rd" gives 3, "-3rd" gives -3, "+3rd" gives 3 |
| `PhpStrings.NumericCast` | time-since.php:108-121 | on a numeric string the cast is the signed value of all its digits |
| `PhpStrings.FourCharNumericRange` | time-since.php:108-121 | a numeric 4-character year casts to a value between -999 and 9999 |
| `PhpStrings.DigitsValueBound` | time-since.php:112 | k digits denote a value below 10^k |
| `Readback.SplitJoin` | time-since.php:137 | cutting the space-separated output at spaces gives back its tokens when no token holds a space |
| `Readback.JoinSplit` | time-since.php:137 | joining the space-cut pieces of any text with single spaces gives the text back |
| `Readback.CanonicalCountPrinted` | time-since.php:137 | a digit string with no leading zero (or "0" itself) is exactly how its value is printed |
| `Readback.LabelsFollowRule` | time-since.php:48-84 | the year, month and day labels are the independent rule's singular or plural word, with the comma after year and month |
| `Readback.FormatIntervalRoundTrip` | time-since.php:137 | the interval text parses back to the same interval, and each label agrees with an independent statement of the rule (singular for one, plural otherwise) |
| `Readback.ParsedTokens` | time-since.php:137 | a text that parses as an interval has six space-separated tokens, each one the printed count or label of that interval |
| `Readback.ParsedTextIsFormatted` | time-since.php:137 | any text that parses as an interval is exactly that interval's formatted text: no leading zeros, no other spacing, no other labels |
| `Readback.ParseIntervalExact` | time-since.php:137 | a text parses as an interval if and only if it is that interval's formatted text |
| `Readback.FormatIntervalInjective` | time-since.php:137 | two different intervals never give the same text |
| `Readback.AcceptedOutputReadsBack` | time-since.php:121-137 | accepted output is "<h2>", the title verbatim, "</h2>", then text that parses back to the interval for the target date built from the cast `y`, `m` and `d` (`m` and `d` 1 when absent); by ParseIntervalExact, that text is the only one that parses to this interval |

## Left out

- Hook registration in the constructor (`add_shortcode`, `add_action`), `load_plugin_textdomain` and the `ABSPATH` guard (time-since.php:16, 25-28, 37-39): host-platform glue with no logic.
- The `__()` translations: every label and message is its fixed English text.
- `new DateTime(...)` and `DateTime::diff` (time-since.php:130-134): library calendar arithmetic, including what it does with dates such as month 13 or day 32. It is the parameter `diff`, and the model says nothing about the interval beyond its being three natural counts. The string `"$y-$m-$d"` that the library parses is collapsed into the `Date` triple.
- `TimeSince.ShortcodeTimeSince`: the failure path of `new DateTime("$y-$m-$d")` (time-since.php:132) is not modelled. PHP throws an uncaught exception on a date string it cannot parse, such as "2020-13-1", and the handler then returns no markup. Because `diff` is total, the contract's "starts with "<h2>" exactly when all checks pass" holds in the source only for target dates the library accepts.
- The clock reads `date('Y')` and `date("Y-m-d H:i:s")` (time-since.php:116, 128): the year is the parameter `currentYear` and "now" lives inside `diff`. The model does not capture the two reads disagreeing across a year boundary.
- `PhpStrings.IsNumeric`: accepts only an optional sign followed by ASCII digits. PHP's `is_numeric` also accepts surrounding whitespace, decimals and exponents ("1e3"), which the model rejects. The lower bound of -999 in `TimeSince.ValidateYear`, `TimeSince.AcceptedYear` and `PhpStrings.FourCharNumericRange` depends on this simplification. In PHP, "-1e3" is numeric, has 4 characters and casts to -1000, so the handler passes it on as the year -1000.
- `PhpStrings.IntCast`: reads an optional sign and leading digits only. It does not skip leading whitespace, read exponents, or saturate at the 64-bit integer limits as PHP's cast does.
- The comparison `$atts['y'] > date('Y')` is PHP's numeric-string comparison. Under the numeric predicate above, it is modelled as comparing the cast value with `currentYear`.
- A missing `title` attribute makes PHP emit a notice (a warning on PHP 8) and use the empty string. The model uses the empty string and leaves out the notice.
