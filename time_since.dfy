/** The `[time-since]` shortcode handler of the Time Since plugin: it checks
    the `y` attribute, builds the target date from `y`, `m` and `d`, and
    renders the title followed by the elapsed years, months and days with
    pluralised labels. The clock and the calendar difference are parameters. */
module TimeSince {
  import opened PhpStrings

  /** The shortcode's attributes, as the host passes them. */
  type Attributes = map<string, string>

  /** The calendar difference between the target date and now. */
  datatype Interval = Interval(years: nat, months: nat, days: nat)

  /** The target date handed to the date library, after the `(int)` casts. */
  datatype Date = Date(year: int, month: int, day: int)

  datatype Result<T> = Ok(value: T) | Err(message: string)

  const YearRequired := "Year is required."
  const YearNotNumeric := "Year must be numeric."
  const YearNotFourDigits := "Year must be 4 digits."
  const YearInFuture := "Year cannot be greater than current year."

  /** The only strings the handler returns instead of markup. */
  const Rejections := {YearRequired, YearNotNumeric, YearNotFourDigits, YearInFuture}

  // Labels

  /** The year label: plural for 0 and for more than one, with a comma. */
  function YearLabel(years: nat): (word: string)
    ensures word == "Year," <==> years == 1
    ensures word == "Years," <==> years != 1
  {
    if years == 0 || years > 1 then "Years," else "Year,"
  }

  /** The month label: plural for 0 and for more than one, with a comma. */
  function MonthLabel(months: nat): (word: string)
    ensures word == "Month," <==> months == 1
    ensures word == "Months," <==> months != 1
  {
    if months == 0 || months > 1 then "Months," else "Month,"
  }

  /** The day label: plural for 0 and for more than one, without a comma. */
  function DayLabel(days: nat): (word: string)
    ensures word == "Day" <==> days == 1
    ensures word == "Days" <==> days != 1
  {
    if days == 0 || days > 1 then "Days" else "Day"
  }

  /** Year and month labels end in a comma; the day label does not. */
  lemma LabelSeparators(n: nat)
    ensures YearLabel(n)[|YearLabel(n)| - 1] == ','
    ensures MonthLabel(n)[|MonthLabel(n)| - 1] == ','
    ensures DayLabel(n)[|DayLabel(n)| - 1] == 'y' || DayLabel(n)[|DayLabel(n)| - 1] == 's'
    ensures ',' !in DayLabel(n)
  {
  }

  // Markup

  /** The title wrapped, unescaped, in a level-2 heading. */
  function TitleString(title: string): (markup: string)
    ensures |markup| == |title| + 9
    ensures markup[..4] == "<h2>"
    ensures markup[4..|title| + 4] == title
    ensures markup[|title| + 4..] == "</h2>"
  {
    "<h2>" + title + "</h2>"
  }

  /** The counts and labels, one space between every two tokens. */
  function FormatInterval(iv: Interval): (text: string)
    ensures |text| > 0 && IsDigit(text[0])
  {
    NatToString(iv.years) + " " + YearLabel(iv.years) + " "
    + NatToString(iv.months) + " " + MonthLabel(iv.months) + " "
    + NatToString(iv.days) + " " + DayLabel(iv.days)
  }

  /** The markup for a title and an interval: the heading, then directly
      (no space) the year count. */
  function Render(title: string, iv: Interval): (out: string)
    ensures |out| > |title| + 9
    ensures out[..|title| + 9] == TitleString(title)
    ensures out[..4] == "<h2>"
    ensures IsDigit(out[|title| + 9])
  {
    var heading := TitleString(title);
    assert (heading + FormatInterval(iv))[..4] == heading[..4];
    heading + FormatInterval(iv)
  }

  // Validation

  /** The year attribute passes all four checks. With numeric strings
      limited to signed decimal integers, the year is then at least -999
      ("-999" is numeric and 4 characters long); PHP's fuller `is_numeric`
      also admits "-1e3", which casts to -1000. */
  predicate AcceptedYear(atts: Attributes, currentYear: int)
    ensures AcceptedYear(atts, currentYear) ==>
      "y" in atts && -999 <= IntCast(atts["y"]) <= currentYear
  {
    && "y" in atts
    && IsNumeric(atts["y"])
    && |atts["y"]| == 4
    && (FourCharNumericRange(atts["y"]); IntCast(atts["y"]) <= currentYear)
  }

  /** The four checks on `y`, in the handler's order; each failure returns
      its own message and skips the checks after it. On success the year is
      the cast value of `y`. */
  function ValidateYear(atts: Attributes, currentYear: int): (r: Result<int>)
    ensures r == Err(YearRequired) <==> "y" !in atts
    ensures r == Err(YearNotNumeric) <==> "y" in atts && !IsNumeric(atts["y"])
    ensures r == Err(YearNotFourDigits) <==>
      "y" in atts && IsNumeric(atts["y"]) && |atts["y"]| != 4
    ensures r == Err(YearInFuture) <==>
      "y" in atts && IsNumeric(atts["y"]) && |atts["y"]| == 4 && IntCast(atts["y"]) > currentYear
    ensures r.Ok? <==> AcceptedYear(atts, currentYear)
    ensures r.Err? ==> r.message in Rejections
    ensures r.Ok? ==> r.value == IntCast(atts["y"]) && -999 <= r.value <= currentYear
  {
    if "y" !in atts then Err(YearRequired)
    else if !IsNumeric(atts["y"]) then Err(YearNotNumeric)
    else if |atts["y"]| != 4 then Err(YearNotFourDigits)
    else if IntCast(atts["y"]) > currentYear then Err(YearInFuture)
    else
      FourCharNumericRange(atts["y"]);
      Ok(IntCast(atts["y"]))
  }

  /** An optional integer attribute: its cast value, or 1 when absent. */
  function OptionalInt(atts: Attributes, key: string): (v: int)
    ensures key !in atts ==> v == 1
    ensures key in atts ==> v == IntCast(atts[key])
    ensures key in atts && IsNumeric(atts[key]) && atts[key][0] != '-' && atts[key][0] != '+'
      ==> v == DigitsValue(atts[key])
  {
    if key !in atts then 1 else IntCast(atts[key])
  }

  /** The title attribute, or the empty string when absent. */
  function TitleAttribute(atts: Attributes): (title: string)
    ensures "title" in atts ==> title == atts["title"]
    ensures "title" !in atts ==> title == ""
  {
    if "title" in atts then atts["title"] else ""
  }

  /** The date the elapsed time is measured from: the validated year, and the
      cast `m` and `d`, each 1 when absent. */
  function TargetDate(atts: Attributes, year: int): (date: Date)
    ensures date.year == year
    ensures "m" !in atts ==> date.month == 1
    ensures "d" !in atts ==> date.day == 1
    ensures "m" in atts ==> date.month == IntCast(atts["m"])
    ensures "d" in atts ==> date.day == IntCast(atts["d"])
  {
    Date(year, OptionalInt(atts, "m"), OptionalInt(atts, "d"))
  }

  /** Present `m` and `d` reach the date through the cast: "3rd" gives day 3
      and "abc" gives month 0. */
  lemma PresentMonthDayCast(atts: Attributes, year: int)
    requires "m" in atts && atts["m"] == "abc"
    requires "d" in atts && atts["d"] == "3rd"
    ensures TargetDate(atts, year).month == 0
    ensures TargetDate(atts, year).day == 3
  {
  }

  // The handler

  /** The shortcode handler. `currentYear` stands for the clock's year and
      `diff` for the date library's difference between now and a date. It
      rejects exactly when a check fails, and otherwise renders the difference
      to the target date built from `y`, `m` and `d`. */
  function ShortcodeTimeSince(atts: Attributes, currentYear: int, diff: Date -> Interval)
    : (out: string)
    ensures "y" !in atts ==> out == YearRequired
    ensures out in Rejections <==> !AcceptedYear(atts, currentYear)
    ensures !AcceptedYear(atts, currentYear) ==> out == ValidateYear(atts, currentYear).message
    ensures AcceptedYear(atts, currentYear) ==>
      out == Render(TitleAttribute(atts), diff(TargetDate(atts, IntCast(atts["y"]))))
    ensures out[..4] == "<h2>" <==> AcceptedYear(atts, currentYear)
  {
    match ValidateYear(atts, currentYear)
    case Err(message) =>
      RejectionIsNotMarkup(message);
      message
    case Ok(year) =>
      var out := Render(TitleAttribute(atts), diff(TargetDate(atts, year)));
      RejectionIsNotMarkup(out);
      out
  }

  /** No rejection message can be mistaken for markup. */
  lemma RejectionIsNotMarkup(s: string)
    ensures s in Rejections ==> |s| > 4 && s[..4] != "<h2>"
  {
    if s in Rejections {
      assert s[0] == 'Y';
    }
  }

  // Properties of the checks' order

  /** A missing year is reported first: without `y`, neither the other
      attributes, nor the current year, nor the date library changes the
      result. */
  lemma MissingYearFirst(atts1: Attributes, currentYear1: int, diff1: Date -> Interval,
                         atts2: Attributes, currentYear2: int, diff2: Date -> Interval)
    requires "y" !in atts1 && "y" !in atts2
    ensures ShortcodeTimeSince(atts1, currentYear1, diff1)
         == ShortcodeTimeSince(atts2, currentYear2, diff2)
  {
  }

  /** An empty year is present, so it fails the numeric check, not the
      presence check. */
  lemma EmptyYearIsNotNumeric(atts: Attributes, currentYear: int, diff: Date -> Interval)
    requires "y" in atts && atts["y"] == ""
    ensures ShortcodeTimeSince(atts, currentYear, diff) == YearNotNumeric
  {
  }

  /** The numeric check precedes the length check: "abcd" has 4 characters
      and is still rejected as non-numeric. */
  lemma NumericCheckBeforeLength(atts: Attributes, currentYear: int, diff: Date -> Interval)
    requires "y" in atts && atts["y"] == "abcd"
    ensures ShortcodeTimeSince(atts, currentYear, diff) == YearNotNumeric
  {
  }

  /** The length check is on the raw string: "999" and "20345" fail it,
      whatever the current year. */
  lemma LengthIsStringLength(atts: Attributes, currentYear: int, diff: Date -> Interval)
    requires "y" in atts && (atts["y"] == "999" || atts["y"] == "20345")
    ensures ShortcodeTimeSince(atts, currentYear, diff) == YearNotFourDigits
  {
  }

  /** "0999" passes the length check and is read as the year 999. */
  lemma LeadingZeroYearAccepted(atts: Attributes, currentYear: int, diff: Date -> Interval)
    requires "y" in atts && atts["y"] == "0999" && currentYear >= 999
    ensures ShortcodeTimeSince(atts, currentYear, diff)
         == Render(TitleAttribute(atts), diff(TargetDate(atts, 999)))
  {
    var y := atts["y"];
    assert IsDigit(y[0]) && IsDigit(y[1]) && IsDigit(y[2]) && IsDigit(y[3]);
    assert y[..3] == "099" && y[..2] == "09" && y[..1] == "0" && y[..0] == "";
    assert y[..1][..0] == y[..0] && y[..2][..1] == y[..1] && y[..3][..2] == y[..2] && y[..3] == y[..|y| - 1];
    assert DigitsValue(y[..1]) == 0;
    assert DigitsValue(y[..2]) == 9;
    assert DigitsValue(y[..3]) == 99;
    assert DigitsValue(y) == 999;
    NumericCast(y);
  }

  /** The current year itself is accepted; the year after it is not. */
  lemma CurrentYearBoundary(atts: Attributes, currentYear: int, diff: Date -> Interval)
    requires "y" in atts && IsNumeric(atts["y"]) && |atts["y"]| == 4
    ensures IntCast(atts["y"]) == currentYear ==>
      ShortcodeTimeSince(atts, currentYear, diff)[..4] == "<h2>"
    ensures IntCast(atts["y"]) == currentYear + 1 ==>
      ShortcodeTimeSince(atts, currentYear, diff) == YearInFuture
  {
  }
}
