/** Reading the handler's markup back: an independent parser for the
    "<count> <label> <count> <label> <count> <label>" text, with its own
    statement of the English pluralisation rule, and the lemmas showing that
    the rendered interval is exactly recovered from the output. */
module Readback {
  import opened PhpStrings
  import opened TimeSince

  datatype Option<T> = None | Some(value: T)

  predicate NoSpace(t: string) {
    ' ' !in t
  }

  /** The tokens with one space between every two. */
  function Join(tokens: seq<string>): string
    requires |tokens| >= 1
  {
    if |tokens| == 1 then tokens[0] else tokens[0] + " " + Join(tokens[1..])
  }

  /** The maximal space-free runs of s, cut at every space. */
  function Split(s: string): (tokens: seq<string>)
    ensures |tokens| >= 1
  {
    if s == [] then [[]]
    else if s[0] == ' ' then [[]] + Split(s[1..])
    else
      var rest := Split(s[1..]);
      [[s[0]] + rest[0]] + rest[1..]
  }

  /** A space-free prefix sticks to the first token. */
  lemma {:induction false} SplitPrefix(t: string, s: string)
    requires NoSpace(t)
    ensures Split(t + s) == [t + Split(s)[0]] + Split(s)[1..]
  {
    if t == [] {
      assert t + s == s && t + Split(s)[0] == Split(s)[0];
      assert Split(s) == [Split(s)[0]] + Split(s)[1..];
    } else {
      assert t[0] != ' ';
      assert (t + s)[1..] == t[1..] + s;
      SplitPrefix(t[1..], s);
      assert [t[0]] + (t[1..] + Split(s)[0]) == t + Split(s)[0];
    }
  }

  /** Splitting undoes joining when no token holds a space. */
  lemma {:induction false} SplitJoin(tokens: seq<string>)
    requires |tokens| >= 1
    requires forall i :: 0 <= i < |tokens| ==> NoSpace(tokens[i])
    ensures Split(Join(tokens)) == tokens
  {
    if |tokens| == 1 {
      SplitPrefix(tokens[0], []);
      assert tokens[0] + [] == tokens[0];
    } else {
      var rest := Join(tokens[1..]);
      assert Join(tokens) == tokens[0] + (" " + rest);
      SplitPrefix(tokens[0], " " + rest);
      assert (" " + rest)[0] == ' ' && (" " + rest)[1..] == rest;
      assert Split(" " + rest) == [[]] + Split(rest);
      assert tokens[0] + [] == tokens[0];
      SplitJoin(tokens[1..]);
      assert tokens == [tokens[0]] + tokens[1..];
    }
  }

  /** English pluralisation, stated on its own: one takes the singular,
      every other count (zero included) the plural. */
  function UnitWord(count: nat, singular: string): (word: string)
    ensures count == 1 <==> word == singular
  {
    if count == 1 then singular else singular + "s"
  }

  /** A count as PHP prints it: digits, with no leading zero unless the
      count is 0 itself. */
  predicate CanonicalCount(t: string) {
    |t| > 0 && AllDigits(t) && (|t| == 1 || t[0] != '0')
  }

  function ParseCount(t: string): (r: Option<nat>)
    ensures r.Some? <==> |t| > 0 && AllDigits(t) && (|t| == 1 || t[0] != '0')
  {
    if CanonicalCount(t) then Some(DigitsValue(t)) else None
  }

  /** A canonical count is the printed form of its own value. */
  lemma {:induction false} CanonicalCountPrinted(t: string)
    requires CanonicalCount(t)
    ensures NatToString(DigitsValue(t)) == t
  {
    var n := DigitsValue(t);
    var c := t[|t| - 1];
    if |t| == 1 {
      assert t[..0] == [];
      assert DigitChar(DigitValue(c)) == c;
      assert t == [c];
    } else {
      var init := t[..|t| - 1];
      assert init[0] == t[0];
      CanonicalCountPrinted(init);
      assert DigitsValue(init) != 0;
      assert n / 10 == DigitsValue(init) && n % 10 == DigitValue(c);
      assert DigitChar(DigitValue(c)) == c;
      assert t == init + [c];
    }
  }

  /** Reads "<y> <Year(s),> <m> <Month(s),> <d> <Day(s)>" back into an
      interval, accepting only labels that agree with their counts. */
  function ParseInterval(text: string): Option<Interval> {
    var tokens := Split(text);
    if |tokens| != 6 then None
    else
      match (ParseCount(tokens[0]), ParseCount(tokens[2]), ParseCount(tokens[4]))
      case (Some(y), Some(m), Some(d)) =>
        if && tokens[1] == UnitWord(y, "Year") + ","
           && tokens[3] == UnitWord(m, "Month") + ","
           && tokens[5] == UnitWord(d, "Day")
        then Some(Interval(y, m, d))
        else None
      case _ => None
  }

  /** Joining six tokens puts one space between every two. */
  lemma JoinSix(a: string, b: string, c: string, d: string, e: string, f: string)
    ensures Join([a, b, c, d, e, f]) == a + " " + b + " " + c + " " + d + " " + e + " " + f
  {
    var t := [a, b, c, d, e, f];
    assert Join(t[5..]) == f;
    assert Join(t[4..]) == e + " " + f;
    assert Join(t[3..]) == d + " " + (e + " " + f);
    assert Join(t[2..]) == c + " " + (d + " " + (e + " " + f));
    assert Join(t[1..]) == b + " " + (c + " " + (d + " " + (e + " " + f)));
  }

  /** The formatted interval reads back as the same interval, with every
      label agreeing with the pluralisation rule. */
  lemma FormatIntervalRoundTrip(iv: Interval)
    ensures ParseInterval(FormatInterval(iv)) == Some(iv)
  {
    var y, m, d := NatToString(iv.years), NatToString(iv.months), NatToString(iv.days);
    var t := [y, YearLabel(iv.years), m, MonthLabel(iv.months), d, DayLabel(iv.days)];
    JoinSix(t[0], t[1], t[2], t[3], t[4], t[5]);
    assert FormatInterval(iv) == Join(t);
    assert NoSpace(y) && NoSpace(m) && NoSpace(d);
    SplitJoin(t);
    NatToStringRoundTrip(iv.years);
    NatToStringRoundTrip(iv.months);
    NatToStringRoundTrip(iv.days);
    assert ParseCount(y) == Some(iv.years);
    assert ParseCount(m) == Some(iv.months);
    assert ParseCount(d) == Some(iv.days);
  }

  /** Gluing a character onto the first token of a split. */
  lemma JoinConsFirst(c: char, tokens: seq<string>)
    requires |tokens| >= 1
    ensures Join([[c] + tokens[0]] + tokens[1..]) == [c] + Join(tokens)
  {
    if |tokens| > 1 {
      var glued := [[c] + tokens[0]] + tokens[1..];
      assert glued[1..] == tokens[1..];
      PrependRegroup(c, tokens[0], Join(tokens[1..]));
    }
  }

  /** Regrouping a concatenation that starts with one character. */
  lemma PrependRegroup(c: char, a: string, b: string)
    ensures (([c] + a) + " ") + b == [c] + ((a + " ") + b)
  {
  }

  /** Joining undoes splitting. */
  lemma {:induction false} JoinSplit(s: string)
    ensures Join(Split(s)) == s
  {
    if s == [] {
    } else if s[0] == ' ' {
      JoinSplit(s[1..]);
      var rest := Split(s[1..]);
      assert ([[]] + rest)[1..] == rest;
      assert Join([[]] + rest) == [] + " " + Join(rest);
      assert s == " " + s[1..];
    } else {
      JoinSplit(s[1..]);
      JoinConsFirst(s[0], Split(s[1..]));
      assert s == [s[0]] + s[1..];
    }
  }

  /** A parsed count token is the printed form of the count. */
  lemma CountToken(t: string, n: nat)
    requires ParseCount(t) == Some(n)
    ensures t == NatToString(n)
  {
    CanonicalCountPrinted(t);
  }

  /** The handler's labels agree with the independent pluralisation rule. */
  lemma LabelsFollowRule(n: nat)
    ensures YearLabel(n) == UnitWord(n, "Year") + ","
    ensures MonthLabel(n) == UnitWord(n, "Month") + ","
    ensures DayLabel(n) == UnitWord(n, "Day")
  {
  }

  /** A text that parses as iv has the six tokens of iv's formatted text. */
  lemma ParsedTokens(text: string, iv: Interval)
    requires ParseInterval(text) == Some(iv)
    ensures var t := Split(text);
            && |t| == 6
            && t[0] == NatToString(iv.years) && t[1] == YearLabel(iv.years)
            && t[2] == NatToString(iv.months) && t[3] == MonthLabel(iv.months)
            && t[4] == NatToString(iv.days) && t[5] == DayLabel(iv.days)
  {
    var t := Split(text);
    CountToken(t[0], iv.years);
    CountToken(t[2], iv.months);
    CountToken(t[4], iv.days);
    LabelsFollowRule(iv.years);
    LabelsFollowRule(iv.months);
    LabelsFollowRule(iv.days);
  }

  /** Whatever parses as an interval is exactly that interval's formatted
      text: no leading zeros, no other spacing, no other labels. */
  lemma ParsedTextIsFormatted(text: string, iv: Interval)
    requires ParseInterval(text) == Some(iv)
    ensures text == FormatInterval(iv)
  {
    var t := Split(text);
    ParsedTokens(text, iv);
    JoinSplit(text);
    JoinSix(t[0], t[1], t[2], t[3], t[4], t[5]);
    assert t == [t[0], t[1], t[2], t[3], t[4], t[5]];
  }

  /** The parser accepts exactly the formatted texts. */
  lemma ParseIntervalExact(text: string, iv: Interval)
    ensures ParseInterval(text) == Some(iv) <==> text == FormatInterval(iv)
  {
    FormatIntervalRoundTrip(iv);
    if ParseInterval(text) == Some(iv) {
      ParsedTextIsFormatted(text, iv);
    }
  }

  /** Different intervals never render as the same text. */
  lemma FormatIntervalInjective(a: Interval, b: Interval)
    ensures FormatInterval(a) == FormatInterval(b) ==> a == b
  {
    FormatIntervalRoundTrip(a);
    FormatIntervalRoundTrip(b);
  }

  /** Accepted output: the heading with the title verbatim, then directly
      the interval the date library gives for the target date built from
      `y`, `m` (default 1) and `d` (default 1). */
  lemma AcceptedOutputReadsBack(atts: Attributes, currentYear: int, diff: Date -> Interval)
    requires AcceptedYear(atts, currentYear)
    ensures var out := ShortcodeTimeSince(atts, currentYear, diff);
            var title := TitleAttribute(atts);
            && |out| > |title| + 9
            && out[..4] == "<h2>"
            && out[4..|title| + 4] == title
            && out[|title| + 4..|title| + 9] == "</h2>"
            && ParseInterval(out[|title| + 9..])
               == Some(diff(TargetDate(atts, IntCast(atts["y"]))))
  {
    var title := TitleAttribute(atts);
    var iv := diff(TargetDate(atts, IntCast(atts["y"])));
    var out := ShortcodeTimeSince(atts, currentYear, diff);
    assert out == TitleString(title) + FormatInterval(iv);
    assert out[|title| + 9..] == FormatInterval(iv);
    assert out[4..|title| + 4] == TitleString(title)[4..|title| + 4];
    assert out[|title| + 4..|title| + 9] == TitleString(title)[|title| + 4..];
    FormatIntervalRoundTrip(iv);
  }
}
