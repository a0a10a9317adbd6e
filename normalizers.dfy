/** The value normalisers of IMDBSpider: formatDuration, formatBudgetGross,
    formatText and cleanText. */
module Normalizers {
  import opened Results
  import opened JavaStrings

  // ---------------------------------------------------------------------------
  // formatDuration

  /** Whether duration.replaceAll("\\s|\"", "") removes c. */
  predicate IsDurationNoise(c: char) { IsSpace(c) || c == '"' }

  /** duration.replaceAll("\\s|\"", ""): drops every `\s` character and
      every double quote; a text that starts with anything else keeps that
      character in front. */
  function StripDurationNoise(s: string): (r: string)
    ensures |r| <= |s|
    ensures forall i :: 0 <= i < |r| ==> !IsDurationNoise(r[i])
    ensures |s| > 0 && !IsDurationNoise(s[0]) ==> |r| > 0 && r[0] == s[0]
  {
    if |s| == 0 then []
    else if IsDurationNoise(s[0]) then StripDurationNoise(s[1..])
    else [s[0]] + StripDurationNoise(s[1..])
  }

  /** Noise removal distributes over concatenation; with the one-character
      cases below this pins the function down, order included. */
  lemma {:induction false} DurationNoiseAppend(a: string, b: string)
    ensures StripDurationNoise(a + b) == StripDurationNoise(a) + StripDurationNoise(b)
  {
    if |a| > 0 {
      assert (a + b)[0] == a[0] && (a + b)[1..] == a[1..] + b;
      DurationNoiseAppend(a[1..], b);
    } else {
      assert a + b == b;
    }
  }

  lemma DurationNoiseOneChar(c: char)
    ensures StripDurationNoise([c]) == if IsDurationNoise(c) then [] else [c]
  {
    assert [c][1..] == [];
  }

  /** Every character other than noise is kept, as often as it occurs. */
  lemma {:induction false} DurationNoiseKeeps(s: string, c: char)
    requires !IsDurationNoise(c)
    ensures multiset(StripDurationNoise(s))[c] == multiset(s)[c]
  {
    if |s| > 0 {
      DurationNoiseKeeps(s[1..], c);
      assert s == [s[0]] + s[1..];
    }
  }

  /** formatDuration: the hours before the first 'h' times 60, plus the minutes
      between that 'h' (or the start) and the first 'm', printed in decimal.
      A part that is present but not a numeral raises NumberFormatException;
      the substring from after 'h' to 'm' raises when 'm' comes first. */
  function FormatDuration(duration: string): (r: Result<string>)
    ensures r.Ok? ==> IsNumeral(r.value)
    ensures r.Err? ==> r.error == NumberFormat
  {
    DurationMinutes(StripDurationNoise(duration))
  }

  /** What formatDuration does once the noise is gone: the hours are read
      first, so their exception is the one raised when both parts are bad. */
  function DurationMinutes(d: string): (r: Result<string>)
    ensures r.Ok? ==> IsNumeral(r.value)
    ensures r.Err? ==> r.error == NumberFormat
  {
    match HoursPart(d)
    case Err(e) => Err(e)
    case Ok(hours) =>
      match MinutesPart(d)
      case Err(e) => Err(e)
      case Ok(minutes) => Ok(IntegerToString(hours * 60 + minutes))
  }

  /** The duration stored reads back, with parseInt, as 60 times the hours
      plus the minutes. */
  lemma DurationReadsBack(duration: string)
    ensures var d := StripDurationNoise(duration);
      FormatDuration(duration).Ok? ==>
        ParseInt(FormatDuration(duration).value) == Ok(HoursPart(d).value * 60 + MinutesPart(d).value)
  {
    var d := StripDurationNoise(duration);
    if DurationMinutes(d).Ok? {
      ParseIntegerToString(HoursPart(d).value * 60 + MinutesPart(d).value);
    }
  }

  /** The numeral before the first 'h', or 0 without an 'h'; only a part that
      is not a numeral throws. */
  function HoursPart(d: string): (r: Result<nat>)
    ensures 'h' !in d ==> r == Ok(0)
    ensures 'h' in d ==> (r.Ok? <==> IsNumeral(d[..IndexOf(d, 'h')]))
    ensures r.Err? ==> r.error == NumberFormat
  {
    var h := IndexOf(d, 'h');
    if h != -1 then ParseInt(d[..h]) else Ok(0)
  }

  /** The numeral between the first 'h' (or the start) and the first 'm', or
      0 without an 'm'; the substring throws when that 'm' precedes the 'h'. */
  function MinutesPart(d: string): (r: Result<nat>)
    ensures 'm' !in d ==> r == Ok(0)
    ensures 'm' in d && IndexOf(d, 'h') < IndexOf(d, 'm') ==>
      (r.Ok? <==> IsNumeral(d[IndexOf(d, 'h') + 1..IndexOf(d, 'm')]))
    ensures r == Err(SubstringRange) <==> 'm' in d && IndexOf(d, 'm') <= IndexOf(d, 'h')
  {
    var m := IndexOf(d, 'm');
    if m == -1 then Ok(0)
    else
      var h := IndexOf(d, 'h');
      if h + 1 > m then Err(SubstringRange) else ParseInt(d[h + 1..m])
  }

  /** Where the two markers of `<hours>h<minutes>m...` sit, and what lies between them. */
  lemma MarkersOf(hs: string, ms: string, rest: string)
    requires 'h' !in hs && 'm' !in hs && 'm' !in ms
    ensures var d := hs + "h" + ms + "m" + rest;
      IndexOf(d, 'h') == |hs| && IndexOf(d, 'm') == |hs| + 1 + |ms| &&
      d[..|hs|] == hs && d[|hs| + 1..|hs| + 1 + |ms|] == ms
  {
    var d := hs + "h" + ms + "m" + rest;
    assert d == hs + ['h'] + (ms + "m" + rest);
    IndexOfFirst(hs, 'h', ms + "m" + rest);
    assert 'm' !in hs + "h" + ms;
    assert d == (hs + "h" + ms) + ['m'] + rest;
    IndexOfFirst(hs + "h" + ms, 'm', rest);
    assert d[..|hs|] == hs;
    assert d[|hs| + 1..|hs| + 1 + |ms|] == ms;
  }

  lemma MinutesOfParts(d: string, hs: string, ms: string)
    requires IndexOf(d, 'h') == |hs| && IndexOf(d, 'm') == |hs| + 1 + |ms|
    requires d[..|hs|] == hs && d[|hs| + 1..|hs| + 1 + |ms|] == ms
    requires IsNumeral(hs) && IsNumeral(ms)
    ensures HoursPart(d) == Ok(NumeralValue(hs)) && MinutesPart(d) == Ok(NumeralValue(ms))
  {
    assert d[..IndexOf(d, 'h')] == hs;
    assert d[IndexOf(d, 'h') + 1..IndexOf(d, 'm')] == ms;
  }

  /** Both parts read: their minutes are printed in decimal. */
  lemma DurationOfParts(d: string, hours: nat, minutes: nat)
    requires HoursPart(d) == Ok(hours) && MinutesPart(d) == Ok(minutes)
    ensures DurationMinutes(d) == Ok(IntegerToString(hours * 60 + minutes))
  {
  }

  /** Both markers: `<H>h<M>m`, whatever follows, gives 60 * H + M. */
  lemma DurationHoursAndMinutes(duration: string, hs: string, ms: string, rest: string)
    requires StripDurationNoise(duration) == hs + "h" + ms + "m" + rest
    requires IsNumeral(hs) && IsNumeral(ms)
    ensures FormatDuration(duration) == Ok(IntegerToString(NumeralValue(hs) * 60 + NumeralValue(ms)))
  {
    BothMarkers(hs, ms, rest);
  }

  /** A numeral holds neither marker letter. */
  lemma NumeralHasNoMarker(s: string)
    requires IsNumeral(s)
    ensures 'h' !in s && 'm' !in s
  {
    assert forall c :: c in s ==> IsDigit(c);
  }

  /** In `<H>h<M>m...` both parts read as their numerals. */
  lemma PartsOfMarkers(hs: string, ms: string, rest: string)
    ensures var d := hs + "h" + ms + "m" + rest;
      IsNumeral(hs) && IsNumeral(ms) ==> HoursPart(d) == Ok(NumeralValue(hs)) && MinutesPart(d) == Ok(NumeralValue(ms))
  {
    if IsNumeral(hs) && IsNumeral(ms) {
      NumeralHasNoMarker(hs);
      NumeralHasNoMarker(ms);
      MarkersOf(hs, ms, rest);
      MinutesOfParts(hs + "h" + ms + "m" + rest, hs, ms);
    }
  }

  lemma BothMarkers(hs: string, ms: string, rest: string)
    requires IsNumeral(hs) && IsNumeral(ms)
    ensures DurationMinutes(hs + "h" + ms + "m" + rest) == Ok(IntegerToString(NumeralValue(hs) * 60 + NumeralValue(ms)))
  {
    var d := hs + "h" + ms + "m" + rest;
    PartsOfMarkers(hs, ms, rest);
    DurationOfParts(d, NumeralValue(hs), NumeralValue(ms));
  }

  /** Only a minute marker: the numeral before 'm' is the result. */
  lemma DurationMinutesOnly(duration: string, ms: string, rest: string)
    requires StripDurationNoise(duration) == ms + "m" + rest
    requires 'h' !in StripDurationNoise(duration)
    requires IsNumeral(ms)
    ensures FormatDuration(duration) == Ok(IntegerToString(NumeralValue(ms)))
  {
    var d := StripDurationNoise(duration);
    assert 'm' !in ms;
    IndexOfFirst(ms, 'm', rest);
    assert d[..|ms|] == ms;
  }

  /** Only an hour marker: the result is 60 times the numeral before 'h'. */
  lemma DurationHoursOnly(duration: string, hs: string, rest: string)
    requires StripDurationNoise(duration) == hs + "h" + rest
    requires 'm' !in StripDurationNoise(duration)
    requires IsNumeral(hs)
    ensures FormatDuration(duration) == Ok(IntegerToString(NumeralValue(hs) * 60))
  {
    var d := StripDurationNoise(duration);
    assert 'h' !in hs;
    IndexOfFirst(hs, 'h', rest);
    assert d[..|hs|] == hs;
  }

  /** Neither marker: the duration is "0". */
  lemma DurationNoMarkers(duration: string)
    requires 'h' !in StripDurationNoise(duration) && 'm' !in StripDurationNoise(duration)
    ensures FormatDuration(duration) == Ok("0")
  {
    assert IntegerToString(0) == "0";
  }

  /** An hour part that is empty or not a numeral is an error, not zero. */
  lemma DurationBadHours(duration: string)
    requires 'h' in StripDurationNoise(duration)
    requires !IsNumeral(StripDurationNoise(duration)[..IndexOf(StripDurationNoise(duration), 'h')])
    ensures FormatDuration(duration) == Err(NumberFormat)
  {
  }

  /** A minute part after a valid hour part that is empty or not a numeral is an
      error, not zero. */
  lemma DurationBadMinutes(duration: string, hs: string, ms: string, rest: string)
    requires StripDurationNoise(duration) == hs + "h" + ms + "m" + rest
    requires IsNumeral(hs) && 'm' !in ms && !IsNumeral(ms)
    ensures FormatDuration(duration) == Err(NumberFormat)
  {
    var d := hs + "h" + ms + "m" + rest;
    assert 'h' !in hs && 'm' !in hs;
    MarkersOf(hs, ms, rest);
    BadMinutesOfParts(d, hs, ms);
  }

  lemma BadMinutesOfParts(d: string, hs: string, ms: string)
    requires IndexOf(d, 'h') == |hs| && IndexOf(d, 'm') == |hs| + 1 + |ms|
    requires d[..|hs|] == hs && d[|hs| + 1..|hs| + 1 + |ms|] == ms
    requires IsNumeral(hs) && !IsNumeral(ms)
    ensures DurationMinutes(d) == Err(NumberFormat)
  {
    assert HoursPart(d) == Ok(NumeralValue(hs));
    assert MinutesPart(d) == Err(NumberFormat);
  }

  /** The same without an hour marker: the part before 'm' must be a numeral. */
  lemma DurationBadMinutesAlone(duration: string, ms: string, rest: string)
    requires StripDurationNoise(duration) == ms + "m" + rest
    requires 'h' !in StripDurationNoise(duration)
    requires 'm' !in ms && !IsNumeral(ms)
    ensures FormatDuration(duration) == Err(NumberFormat)
  {
    var d := StripDurationNoise(duration);
    IndexOfFirst(ms, 'm', rest);
    assert d[..|ms|] == ms;
  }

  /** The substring between the markers never runs backwards: when the hour
      part parses, the first 'm' comes after the 'h'. */
  lemma DurationNeverSubstringRange(duration: string)
    ensures FormatDuration(duration) != Err(SubstringRange)
  {
    var d := StripDurationNoise(duration);
    var h := IndexOf(d, 'h');
    var m := IndexOf(d, 'm');
    assert 0 <= m < h ==> d[..h][m] == 'm';
  }

  /** The numerals the worked cases below need. */
  lemma ExampleNumerals()
    ensures NumeralValue("2") == 2 && NumeralValue("3") == 3
    ensures NumeralValue("15") == 15 && NumeralValue("45") == 45
    ensures IntegerToString(135) == "135" && IntegerToString(45) == "45" && IntegerToString(180) == "180"
  {
    assert "15"[..1] == "1" && "45"[..1] == "4";
    assert Digit(1) == '1' && Digit(3) == '3' && Digit(4) == '4' && Digit(5) == '5';
    assert Digit(8) == '8' && Digit(0) == '0';
    assert IntegerToString(1) == "1" && IntegerToString(4) == "4";
    assert IntegerToString(13) == "1" + "3" && IntegerToString(18) == "1" + "8";
  }

  /** The worked case of a film listing: "2h 15m" is 135 minutes. */
  lemma DurationExampleHoursAndMinutes()
    ensures FormatDuration("2h 15m") == Ok("135")
  {
    ExampleNoise();
    DurationHoursAndMinutes("2h 15m", "2", "15", "");
    ExampleNumerals();
  }

  lemma ExampleNoise()
    ensures StripDurationNoise("2h 15m") == "2" + "h" + "15" + "m" + ""
  {
    assert StripDurationNoise(" 15m") == StripDurationNoise("15m");
  }

  /** "45m" is 45 minutes. */
  lemma DurationExampleMinutes()
    ensures FormatDuration("45m") == Ok("45")
  {
    assert StripDurationNoise("45m") == "45" + "m" + "";
    DurationMinutesOnly("45m", "45", "");
    ExampleNumerals();
  }

  /** A quoted "3h" is 180 minutes. */
  lemma DurationExampleHours()
    ensures FormatDuration("\"3h\"") == Ok("180")
  {
    assert StripDurationNoise("\"3h\"") == "3" + "h" + "";
    DurationHoursOnly("\"3h\"", "3", "");
    ExampleNumerals();
  }

  /** An empty hour part fails rather than counting as zero. */
  lemma DurationExampleEmptyHours()
    ensures FormatDuration("h30m") == Err(NumberFormat)
  {
    assert StripDurationNoise("h30m") == "h30m";
    DurationBadHours("h30m");
  }

  // ---------------------------------------------------------------------------
  // formatBudgetGross

  /** value.replaceAll("[^0-9]", ""): keeps the decimal digits, in order. */
  function FormatBudgetGross(value: string): (r: string)
    ensures IsDigits(r)
    ensures |r| <= |value|
  {
    if |value| == 0 then []
    else if IsDigit(value[0]) then [value[0]] + FormatBudgetGross(value[1..])
    else FormatBudgetGross(value[1..])
  }

  /** Filtering distributes over concatenation; with the one-character cases
      below this pins the function down completely. */
  lemma {:induction false} BudgetGrossAppend(a: string, b: string)
    ensures FormatBudgetGross(a + b) == FormatBudgetGross(a) + FormatBudgetGross(b)
  {
    if |a| > 0 {
      assert (a + b)[0] == a[0] && (a + b)[1..] == a[1..] + b;
      BudgetGrossAppend(a[1..], b);
    } else {
      assert a + b == b;
    }
  }

  lemma BudgetGrossOneChar(c: char)
    ensures FormatBudgetGross([c]) == if IsDigit(c) then [c] else []
  {
    assert [c][1..] == [];
  }

  /** A string changes exactly when it holds something other than digits. */
  lemma {:induction false} BudgetGrossFixpoint(value: string)
    ensures FormatBudgetGross(value) == value <==> IsDigits(value)
  {
    if |value| > 0 && IsDigits(value) {
      BudgetGrossFixpoint(value[1..]);
      assert value == [value[0]] + value[1..];
    }
  }

  lemma BudgetGrossIdempotent(value: string)
    ensures FormatBudgetGross(FormatBudgetGross(value)) == FormatBudgetGross(value)
  {
    BudgetGrossFixpoint(FormatBudgetGross(value));
  }

  /** The result is empty exactly when the input has no digit. */
  lemma {:induction false} BudgetGrossEmpty(value: string)
    ensures FormatBudgetGross(value) == [] <==> forall i :: 0 <= i < |value| ==> !IsDigit(value[i])
  {
    if |value| > 0 {
      BudgetGrossEmpty(value[1..]);
      assert forall i :: 1 <= i < |value| ==> value[1..][i - 1] == value[i];
    }
  }

  /** Every digit of the input is kept, as often as it occurs there. */
  lemma {:induction false} BudgetGrossKeepsDigits(value: string, c: char)
    requires IsDigit(c)
    ensures multiset(FormatBudgetGross(value))[c] == multiset(value)[c]
  {
    if |value| > 0 {
      BudgetGrossKeepsDigits(value[1..], c);
      assert value == [value[0]] + value[1..];
    }
  }

  predicate IsSubsequence(sub: string, s: string)
    decreases |s|
  {
    |sub| == 0 || (|s| > 0 && (if sub[0] == s[0] then IsSubsequence(sub[1..], s[1..]) else IsSubsequence(sub, s[1..])))
  }

  /** The digits come out in their original order. */
  lemma {:induction false} BudgetGrossInOrder(value: string)
    ensures IsSubsequence(FormatBudgetGross(value), value)
  {
    if |value| > 0 {
      BudgetGrossInOrder(value[1..]);
      var r := FormatBudgetGross(value);
      if IsDigit(value[0]) {
        assert r[0] == value[0] && r[1..] == FormatBudgetGross(value[1..]);
      } else {
        assert |r| > 0 ==> IsDigit(r[0]);
      }
    }
  }

  lemma BudgetGrossNoDigitExamples()
    ensures FormatBudgetGross("") == ""
    ensures FormatBudgetGross("n/a") == ""
  {
  }

  lemma BudgetGrossExample()
    ensures FormatBudgetGross("$1,234,567") == "1234567"
  {
    assert "$1,234,567" == "$1," + "234,567";
    BudgetGrossAppend("$1,", "234,567");
    BudgetGrossLeadingPart();
    BudgetGrossTrailingPart();
    assert "1" + "234567" == "1234567";
  }

  lemma BudgetGrossLeadingPart()
    ensures FormatBudgetGross("$1,") == "1"
  {
    BudgetGrossAppend("$", "1,");
  }

  lemma BudgetGrossTrailingPart()
    ensures FormatBudgetGross("234,567") == "234567"
  {
    BudgetGrossAppend("234,", "567");
    BudgetGrossAppend("23", "4,");
  }


  // ---------------------------------------------------------------------------
  // formatText

  /** The HTML character reference for the apostrophe. */
  const Apostrophe: string := "&#x27;"

  /** text.replaceAll("&#x27;", "'"). */
  function FormatText(text: string): (r: string)
    ensures !Contains(r, Apostrophe)
  {
    ReplaceRemoves(text, Apostrophe, "'");
    ReplaceAll(text, Apostrophe, "'")
  }

  /** Text without the reference is left as it is, and only such text is. */
  lemma FormatTextUnchanged(text: string)
    ensures FormatText(text) == text <==> !Contains(text, Apostrophe)
  {
    if !Contains(text, Apostrophe) {
      ReplaceAbsentUnchanged(text, Apostrophe, "'");
    } else {
      ReplaceShortens(text, Apostrophe, "'");
    }
  }

  lemma FormatTextIdempotent(text: string)
    ensures FormatText(FormatText(text)) == FormatText(text)
  {
    FormatTextUnchanged(FormatText(text));
  }

  /** How the site writes an apostrophe into its markup. */
  function EscapeApostrophes(text: string): string {
    ReplaceAll(text, "'", Apostrophe)
  }

  /** formatText undoes the site's escaping of apostrophes, for any text that
      did not spell out the reference itself. */
  lemma FormatTextUnescapes(text: string)
    requires !Contains(text, Apostrophe)
    ensures FormatText(EscapeApostrophes(text)) == text
  {
    ReplaceUndone(text, '\'', Apostrophe);
  }

  lemma FormatTextExample()
    ensures FormatText("It&#x27;s") == "It's"
  {
    var s := "It&#x27;s";
    assert ReplaceAll("s", Apostrophe, "'") == "s";
    assert HasPrefix(s[2..], Apostrophe) && s[2..][6..] == "s";
    assert ReplaceAll(s[2..], Apostrophe, "'") == "'s";
    assert !HasPrefix(s[1..], Apostrophe) && s[1..][1..] == s[2..];
    assert ReplaceAll(s[1..], Apostrophe, "'") == "t's";
    assert !HasPrefix(s, Apostrophe);
  }

  // ---------------------------------------------------------------------------
  // cleanText

  /** The length of the first line of s: the index of its first line
      terminator, or |s| when it has none. */
  function FirstLineLength(s: string): (n: nat)
    ensures n <= |s|
    ensures n < |s| ==> IsLineTerminator(s[n])
    ensures forall k :: 0 <= k < n ==> !IsLineTerminator(s[k])
  {
    if |s| == 0 || IsLineTerminator(s[0]) then 0 else 1 + FirstLineLength(s[1..])
  }

  /** Where the lazy `.*?>` that follows a '<' stops: at the first '>' of s,
      provided no line terminator comes before it (`.` does not match one);
      there is no match exactly when the first line has no '>'. */
  function TagClose(s: string): (r: Option<nat>)
    ensures r.Some? ==> r.value < |s| && s[r.value] == '>'
    ensures r.Some? ==> forall k :: 0 <= k < r.value ==> s[k] != '>' && !IsLineTerminator(s[k])
    ensures r.None? ==> forall k :: 0 <= k < FirstLineLength(s) ==> s[k] != '>'
  {
    if |s| == 0 then None
    else if s[0] == '>' then Some(0)
    else if IsLineTerminator(s[0]) then None
    else match TagClose(s[1..])
      case None => None
      case Some(j) => Some(j + 1)
  }

  /** Whether a match of `\<.*?>` starts somewhere in s. */
  predicate HasTag(s: string)
    decreases |s|
  {
    |s| > 0 && ((s[0] == '<' && TagClose(s[1..]).Some?) || HasTag(s[1..]))
  }

  /** text.replaceAll("\\<.*?>", ""): scanning left to right, each '<' that
      starts a match is dropped together with everything up to and including
      the '>' that ends it. */
  function StripTags(s: string): (r: string)
    ensures |r| <= |s|
    ensures HasTag(s) ==> |r| < |s|
    decreases |s|
  {
    if |s| == 0 then []
    else if s[0] == '<' && TagClose(s[1..]).Some? then StripTags(s[TagClose(s[1..]).value + 2..])
    else [s[0]] + StripTags(s[1..])
  }

  /** Removing tags does not bring a '>' into reach of a '<' that had none. */
  lemma {:induction false} TagCloseSurvives(t: string)
    requires TagClose(t).None?
    ensures TagClose(StripTags(t)).None?
  {
    if |t| > 0 && !IsLineTerminator(t[0]) {
      TagCloseSurvives(t[1..]);
      var x := StripTags(t[1..]);
      assert StripTags(t) == [t[0]] + x;
      assert ([t[0]] + x)[1..] == x;
    } else if |t| > 0 {
      assert StripTags(t) == [t[0]] + StripTags(t[1..]);
    }
  }

  /** No tag is left on any one line of the result. */
  lemma {:induction false} StripTagsLeavesNoTag(s: string)
    ensures !HasTag(StripTags(s))
  {
    if |s| > 0 {
      if s[0] == '<' && TagClose(s[1..]).Some? {
        StripTagsLeavesNoTag(s[TagClose(s[1..]).value + 2..]);
      } else {
        var x := StripTags(s[1..]);
        StripTagsLeavesNoTag(s[1..]);
        if s[0] == '<' { TagCloseSurvives(s[1..]); }
        assert StripTags(s) == [s[0]] + x;
        assert ([s[0]] + x)[1..] == x;
      }
    }
  }

  /** Text is left as it is exactly when it holds no tag. */
  lemma {:induction false} StripTagsUnchanged(s: string)
    ensures StripTags(s) == s <==> !HasTag(s)
  {
    if |s| > 0 && !HasTag(s) {
      StripTagsUnchanged(s[1..]);
      assert s == [s[0]] + s[1..];
    }
  }

  /** A character that does not open a match is kept, in front of what the
      rest becomes: a character other than '<', or a '<' with no '>' on the
      rest of its line. */
  lemma StripTagsKeepsText(c: char, s: string)
    requires c != '<' || TagClose(s).None?
    ensures StripTags([c] + s) == [c] + StripTags(s)
  {
    assert ([c] + s)[1..] == s;
  }

  /** The leading `\s` characters of s removed. */
  function DropSpaces(s: string): (r: string)
    ensures |r| <= |s| && r == s[|s| - |r|..]
    ensures |r| > 0 ==> !IsSpace(r[0])
  {
    if |s| > 0 && IsSpace(s[0]) then DropSpaces(s[1..]) else s
  }

  /** s with every `\s` character left out: the text that spacing separates. */
  function NonSpaces(s: string): (r: string)
    ensures |r| <= |s|
  {
    if |s| == 0 then []
    else if IsSpace(s[0]) then NonSpaces(s[1..])
    else [s[0]] + NonSpaces(s[1..])
  }

  /** Dropping leading spacing leaves the text between the spacing alone. */
  lemma {:induction false} NonSpacesDropSpaces(s: string)
    ensures NonSpaces(DropSpaces(s)) == NonSpaces(s)
  {
    if |s| > 0 && IsSpace(s[0]) {
      NonSpacesDropSpaces(s[1..]);
    }
  }

  predicate NoAdjacentSpaces(s: string) {
    forall i :: 0 <= i < |s| - 1 ==> !(IsSpace(s[i]) && IsSpace(s[i + 1]))
  }

  /** s.replaceAll("\\s+", " "): each maximal run of `\s` characters becomes
      one space. */
  function CollapseSpaces(s: string): (r: string)
    ensures |r| <= |s| && (|r| == 0 <==> |s| == 0)
    ensures |r| > 0 ==> (IsSpace(r[0]) <==> IsSpace(s[0]))
    ensures forall i :: 0 <= i < |r| && IsSpace(r[i]) ==> r[i] == ' '
    ensures NoAdjacentSpaces(r)
    decreases |s|
  {
    if |s| == 0 then []
    else if IsSpace(s[0]) then [' '] + CollapseSpaces(DropSpaces(s[1..]))
    else [s[0]] + CollapseSpaces(s[1..])
  }

  /** Leading spacing is all there is exactly when the text is all spacing. */
  lemma {:induction false} DropAll(s: string)
    ensures DropSpaces(s) == [] <==> forall i :: 0 <= i < |s| ==> IsSpace(s[i])
  {
    if |s| > 0 && IsSpace(s[0]) {
      DropAll(s[1..]);
      assert forall i :: 0 < i < |s| ==> s[i] == s[1..][i - 1];
    }
  }

  /** Dropping the leading spacing of u + b: what is left of u when u is not
      all spacing, otherwise the spacing of b is dropped too. */
  lemma {:induction false} DropPrefixSpaces(u: string, b: string)
    ensures DropSpaces(u + b) == if DropSpaces(u) == [] then DropSpaces(b) else DropSpaces(u) + b
  {
    if |u| == 0 {
      assert u + b == b;
    } else if IsSpace(u[0]) {
      assert (u + b)[1..] == u[1..] + b;
      DropPrefixSpaces(u[1..], b);
    }
  }

  /** A non-empty run of `\s` characters becomes a single space. */
  lemma CollapseRun(run: string)
    requires |run| > 0 && forall i :: 0 <= i < |run| ==> IsSpace(run[i])
    ensures CollapseSpaces(run) == " "
  {
    DropAll(run[1..]);
  }

  /** Collapsing works run by run: text split where a run of `\s` does not
      straddle the cut collapses as its two parts, concatenated. */
  lemma {:induction false} CollapseAppend(a: string, b: string)
    requires |a| == 0 || |b| == 0 || !IsSpace(a[|a| - 1]) || !IsSpace(b[0])
    ensures CollapseSpaces(a + b) == CollapseSpaces(a) + CollapseSpaces(b)
    decreases |a|, 2
  {
    if |a| == 0 {
      assert a + b == b;
      assert CollapseSpaces(a) == [];
      assert [] + CollapseSpaces(b) == CollapseSpaces(b);
    } else if !IsSpace(a[0]) {
      CollapseAppendKept(a, b);
    } else {
      CollapseAppendRun(a, b);
    }
  }

  /** CollapseAppend when a starts with a character that is kept. */
  lemma {:induction false} CollapseAppendKept(a: string, b: string)
    requires |a| > 0 && !IsSpace(a[0])
    requires |b| == 0 || !IsSpace(a[|a| - 1]) || !IsSpace(b[0])
    ensures CollapseSpaces(a + b) == CollapseSpaces(a) + CollapseSpaces(b)
    decreases |a|, 1
  {
    var u := a[1..];
    assert a == [a[0]] + u;
    assert a + b == [a[0]] + (u + b);
    CollapseCons(a[0], u);
    CollapseCons(a[0], u + b);
    CollapseAppend(u, b);
    ConcatAssoc([a[0]], CollapseSpaces(u), CollapseSpaces(b));
  }

  /** CollapseAppend when a starts with a run of spacing. */
  lemma {:induction false} CollapseAppendRun(a: string, b: string)
    requires |a| > 0 && IsSpace(a[0])
    requires |b| == 0 || !IsSpace(a[|a| - 1]) || !IsSpace(b[0])
    ensures CollapseSpaces(a + b) == CollapseSpaces(a) + CollapseSpaces(b)
    decreases |a|, 1
  {
    var u := a[1..];
    assert a == [a[0]] + u;
    assert a + b == [a[0]] + (u + b);
    CollapseCons(a[0], u);
    CollapseCons(a[0], u + b);
    CollapseAfterSpace(a, b);
    ConcatAssoc([' '], CollapseSpaces(DropSpaces(u)), CollapseSpaces(b));
  }

  /** After the leading `\s` of a, the rest of a + b collapses as the rest
      of a followed by b, since no run straddles the cut. */
  lemma {:induction false} CollapseAfterSpace(a: string, b: string)
    requires |a| > 0 && IsSpace(a[0])
    requires |b| == 0 || !IsSpace(a[|a| - 1]) || !IsSpace(b[0])
    ensures CollapseSpaces(DropSpaces(a[1..] + b)) == CollapseSpaces(DropSpaces(a[1..])) + CollapseSpaces(b)
    decreases |a|, 0
  {
    var u := a[1..];
    DropPrefixSpaces(u, b);
    if DropSpaces(u) == [] {
      RunEndsInSpace(a);
      assert DropSpaces(b) == b;
    } else {
      var w := DropSpaces(u);
      assert w[|w| - 1] == a[|a| - 1];
      CollapseAppend(w, b);
    }
  }

  /** Text that is a single run of spacing ends in spacing. */
  lemma RunEndsInSpace(a: string)
    requires |a| > 0 && IsSpace(a[0]) && DropSpaces(a[1..]) == []
    ensures IsSpace(a[|a| - 1])
  {
    DropAll(a[1..]);
    if |a| > 1 {
      assert a[|a| - 1] == a[1..][|a| - 2];
    }
  }

  lemma ConcatAssoc(x: string, y: string, z: string)
    ensures x + (y + z) == (x + y) + z
  {
  }

  /** One step of collapsing: a leading `\s` becomes a space and swallows
      the spacing after it; any other character is kept. */
  lemma CollapseCons(c: char, t: string)
    ensures CollapseSpaces([c] + t) ==
      if IsSpace(c) then [' '] + CollapseSpaces(DropSpaces(t)) else [c] + CollapseSpaces(t)
  {
    assert ([c] + t)[1..] == t;
  }

  /** Collapsing keeps the text between the runs of spacing as it is, in
      order: only `\s` characters are replaced or removed. */
  lemma {:induction false} CollapseKeepsText(s: string)
    ensures NonSpaces(CollapseSpaces(s)) == NonSpaces(s)
    decreases |s|
  {
    if |s| > 0 {
      if IsSpace(s[0]) {
        var tail := CollapseSpaces(DropSpaces(s[1..]));
        CollapseKeepsText(DropSpaces(s[1..]));
        NonSpacesDropSpaces(s[1..]);
        assert ([' '] + tail)[1..] == tail;
      } else {
        var tail := CollapseSpaces(s[1..]);
        CollapseKeepsText(s[1..]);
        assert ([s[0]] + tail)[1..] == tail;
      }
    }
  }

  /** Collapsing changes nothing in text whose only spacing is single spaces. */
  lemma CollapseSpacesUnchanged(s: string)
    ensures CollapseSpaces(s) == s <==> NoAdjacentSpaces(s) && forall i :: 0 <= i < |s| && IsSpace(s[i]) ==> s[i] == ' '
  {
    if NoAdjacentSpaces(s) && forall i :: 0 <= i < |s| && IsSpace(s[i]) ==> s[i] == ' ' {
      CollapseSingleSpaced(s);
    }
  }

  lemma {:induction false} CollapseSingleSpaced(s: string)
    requires NoAdjacentSpaces(s) && forall i :: 0 <= i < |s| && IsSpace(s[i]) ==> s[i] == ' '
    ensures CollapseSpaces(s) == s
  {
    if |s| > 0 {
      var t := s[1..];
      assert NoAdjacentSpaces(t) by {
        forall i | 0 <= i < |t| - 1 ensures !(IsSpace(t[i]) && IsSpace(t[i + 1])) {
          assert t[i] == s[i + 1] && t[i + 1] == s[i + 2];
        }
      }
      assert forall i :: 0 <= i < |t| && IsSpace(t[i]) ==> t[i] == ' ' by {
        forall i | 0 <= i < |t| && IsSpace(t[i]) ensures t[i] == ' ' {
          assert t[i] == s[i + 1];
        }
      }
      CollapseSingleSpaced(t);
      if IsSpace(s[0]) {
        assert |t| > 0 ==> !IsSpace(t[0]) by {
          if |t| > 0 { assert t[0] == s[1]; }
        }
        assert DropSpaces(t) == t;
      }
      assert s == [s[0]] + t;
    }
  }

  /** A prefix of collapsed text that holds no `\s` was a prefix of the original. */
  lemma {:induction false} CollapsePrefix(t: string, q: string)
    requires forall i :: 0 <= i < |q| ==> !IsSpace(q[i])
    ensures HasPrefix(CollapseSpaces(t), q) ==> HasPrefix(t, q)
  {
    if |t| > 0 && |q| > 0 && !IsSpace(t[0]) {
      var tail := CollapseSpaces(t[1..]);
      assert CollapseSpaces(t) == [t[0]] + tail;
      PrefixCons(t[0], tail, q);
      PrefixCons(t[0], t[1..], q);
      assert t == [t[0]] + t[1..];
      CollapsePrefix(t[1..], q[1..]);
    }
  }

  /** Collapsing never creates text that holds no `\s`. */
  lemma {:induction false} CollapseKeepsAbsent(s: string, q: string)
    requires |q| > 0 && forall i :: 0 <= i < |q| ==> !IsSpace(q[i])
    requires !Contains(s, q)
    ensures !Contains(CollapseSpaces(s), q)
  {
    if |s| > 0 {
      if IsSpace(s[0]) {
        var u := DropSpaces(s[1..]);
        assert u == s[|s| - |u|..];
        ContainsSuffix(s, |s| - |u|, q);
        CollapseKeepsAbsent(u, q);
        PrefixCons(' ', CollapseSpaces(u), q);
      } else {
        var tail := CollapseSpaces(s[1..]);
        ContainsSuffix(s, 1, q);
        CollapseKeepsAbsent(s[1..], q);
        CollapsePrefix(s[1..], q[1..]);
        PrefixCons(s[0], tail, q);
        PrefixCons(s[0], s[1..], q);
        assert s == [s[0]] + s[1..];
      }
    }
  }

  /** The HTML non-breaking space reference. */
  const NonBreakingSpace: string := "&nbsp;"

  /** cleanText: tags dropped, non-breaking spaces and line feeds turned into
      spaces, runs of `\s` collapsed to one space, and the ends trimmed. The
      result is never longer than the text, and shorter when the text holds
      a tag; nothing at or below U+0020 is left at either end. */
  function CleanText(text: string): (r: string)
    ensures |r| <= |text|
    ensures HasTag(text) ==> |r| < |text|
    ensures |r| > 0 ==> r[0] > ' ' && r[|r| - 1] > ' '
  {
    var untagged := StripTags(text);
    var spaced := ReplaceAll(untagged, NonBreakingSpace, " ");
    var joined := ReplaceAll(spaced, "\n", " ");
    ReplaceShortens(untagged, NonBreakingSpace, " ");
    ReplaceShortens(spaced, "\n", " ");
    Trim(CollapseSpaces(joined))
  }

  /** What cleaned text looks like: no space at either end, no line feed, no
      `&nbsp;`, and never two `\s` characters side by side. */
  lemma CleanTextShape(text: string)
    ensures var r := CleanText(text);
      (|r| > 0 ==> r[0] > ' ' && r[|r| - 1] > ' ') &&
      '\n' !in r && !Contains(r, NonBreakingSpace) && NoAdjacentSpaces(r)
  {
    var spaced := ReplaceAll(StripTags(text), NonBreakingSpace, " ");
    var joined := ReplaceAll(spaced, "\n", " ");
    var collapsed := CollapseSpaces(joined);
    assert SpacesAreBlanks(collapsed);
    TrimKeepsSpacing(collapsed);
    CleanTextDropsNonBreakingSpaces(text);
  }

  lemma NonBreakingSpaceHasNoSpace()
    ensures |NonBreakingSpace| == 6 && NonBreakingSpace[0] == '&'
    ensures forall i :: 0 <= i < |NonBreakingSpace| ==> !IsSpace(NonBreakingSpace[i])
    ensures ' ' !in NonBreakingSpace
  {
    assert NonBreakingSpace == ['&', 'n', 'b', 's', 'p', ';'];
  }

  lemma CleanTextDropsNonBreakingSpaces(text: string)
    ensures !Contains(CleanText(text), NonBreakingSpace)
  {
    var untagged := StripTags(text);
    var spaced := ReplaceAll(untagged, NonBreakingSpace, " ");
    var joined := ReplaceAll(spaced, "\n", " ");
    var collapsed := CollapseSpaces(joined);
    NonBreakingSpaceHasNoSpace();
    ReplaceRemoves(untagged, NonBreakingSpace, " ");
    ReplaceKeepsAbsent(spaced, "\n", " ", NonBreakingSpace);
    CollapseKeepsAbsent(joined, NonBreakingSpace);
    TrimKeepsAbsent(collapsed, NonBreakingSpace);
  }

  /** Trimming keeps single plain spaces single and plain. */
  lemma TrimKeepsSpacing(collapsed: string)
    requires SpacesAreBlanks(collapsed) && NoAdjacentSpaces(collapsed)
    ensures '\n' !in Trim(collapsed)
    ensures SpacesAreBlanks(Trim(collapsed))
    ensures NoAdjacentSpaces(Trim(collapsed))
  {
    var front := TrimStart(collapsed);
    SliceKeepsSpacing(collapsed, |collapsed| - |front|, |collapsed|);
    var r := TrimEnd(front);
    SliceKeepsSpacing(front, 0, |r|);
    BlanksHaveNoLineFeed(r);
  }

  lemma SliceKeepsSpacing(s: string, lo: nat, hi: nat)
    requires lo <= hi <= |s|
    requires SpacesAreBlanks(s) && NoAdjacentSpaces(s)
    ensures SpacesAreBlanks(s[lo..hi]) && NoAdjacentSpaces(s[lo..hi])
  {
    var r := s[lo..hi];
    assert forall i :: 0 <= i < |r| ==> r[i] == s[lo + i];
  }

  lemma BlanksHaveNoLineFeed(s: string)
    requires SpacesAreBlanks(s)
    ensures '\n' !in s
  {
    assert forall i :: 0 <= i < |s| ==> s[i] != '\n' by {
      assert IsSpace('\n');
    }
  }


  /** Trimming keeps only a slice, so it cannot create text. */
  lemma TrimKeepsAbsent(s: string, q: string)
    requires !Contains(s, q)
    ensures !Contains(Trim(s), q)
  {
    var front := TrimStart(s);
    ContainsSuffix(s, |s| - |front|, q);
    ContainsPrefix(front, |TrimEnd(front)|, q);
  }

  /** Every `\s` character of s is a plain space. */
  predicate SpacesAreBlanks(s: string) {
    forall i :: 0 <= i < |s| && IsSpace(s[i]) ==> s[i] == ' '
  }

  /** Text that cleaning leaves as it is: no tag, no `&nbsp;`, only single
      plain spaces, none at either end. */
  predicate IsClean(text: string) {
    !HasTag(text) && !Contains(text, NonBreakingSpace) &&
    NoAdjacentSpaces(text) && SpacesAreBlanks(text) &&
    (|text| > 0 ==> text[0] > ' ' && text[|text| - 1] > ' ')
  }

  /** cleanText is the identity on clean text and on nothing else. */
  lemma CleanTextIdentity(text: string)
    ensures CleanText(text) == text <==> IsClean(text)
  {
    if IsClean(text) {
      CleanTextKeepsClean(text);
    }
    CleanTextFixesOnlyClean(text);
  }

  lemma CleanTextKeepsClean(text: string)
    requires IsClean(text)
    ensures CleanText(text) == text
  {
    StripTagsUnchanged(text);
    assert StripTags(text) == text;
    ReplaceAbsentUnchanged(text, NonBreakingSpace, " ");
    assert '\n' !in text by {
      assert forall i :: 0 <= i < |text| ==> text[i] != '\n';
    }
    NoFirstCharNoContains(text, "\n");
    ReplaceAbsentUnchanged(text, "\n", " ");
    CollapseSpacesUnchanged(text);
    assert CollapseSpaces(text) == text;
  }

  lemma CleanTextFixesOnlyClean(text: string)
    ensures CleanText(text) == text ==> IsClean(text)
  {
    var untagged := StripTags(text);
    var spaced := ReplaceAll(untagged, NonBreakingSpace, " ");
    var joined := ReplaceAll(spaced, "\n", " ");
    var collapsed := CollapseSpaces(joined);
    CleanTextShape(text);
    assert SpacesAreBlanks(collapsed);
    TrimKeepsSpacing(collapsed);
  }

  /** A tag broken across lines is not a match of `\<.*?>`; once its line
      feed becomes a space it reads as a tag, so cleaning twice differs from
      cleaning once: "<x\nx>" cleans to "<x x>", which cleans to "". */
  lemma CleanTextSplitTag(x: char)
    requires 'a' <= x <= 'z'
    ensures CleanText(['<', x, '\n', x, '>']) == ['<', x, ' ', x, '>']
  {
    SplitTagUntagged(x);
    SplitTagJoined(x);
    SplitTagCollapsed(x);
  }

  /** The second cleaning of the text above removes the tag it now holds. */
  lemma CleanTextJoinedTag(x: char)
    requires 'a' <= x <= 'z'
    ensures CleanText(['<', x, ' ', x, '>']) == []
  {
    SplitTagRetagged(x);
  }

  lemma SplitTagUntagged(x: char)
    requires 'a' <= x <= 'z'
    ensures StripTags(['<', x, '\n', x, '>']) == ['<', x, '\n', x, '>']
    ensures ReplaceAll(['<', x, '\n', x, '>'], NonBreakingSpace, " ") == ['<', x, '\n', x, '>']
  {
    var t := ['<', x, '\n', x, '>'];
    assert !HasTag(t) by {
      assert t[1..] == [x] + ['\n', x, '>'];
      assert TagClose(['\n', x, '>']) == None;
      NoOpenNoTag(t[1..]);
    }
    StripTagsUnchanged(t);
    NoFirstCharNoContains(t, NonBreakingSpace);
    ReplaceAbsentUnchanged(t, NonBreakingSpace, " ");
  }

  lemma SplitTagJoined(x: char)
    requires 'a' <= x <= 'z'
    ensures ReplaceAll(['<', x, '\n', x, '>'], "\n", " ") == ['<', x, ' ', x, '>']
  {
    assert ['<', x, '\n', x, '>'] == ['<'] + ([x] + ("\n" + [x, '>']));
    ReplaceKeeps('<', [x] + ("\n" + [x, '>']), "\n", " ");
    ReplaceKeeps(x, "\n" + [x, '>'], "\n", " ");
    ReplaceAt("\n", [x, '>'], " ");
    NoFirstCharNoContains([x, '>'], "\n");
    ReplaceAbsentUnchanged([x, '>'], "\n", " ");
  }

  lemma SplitTagCollapsed(x: char)
    requires 'a' <= x <= 'z'
    ensures CollapseSpaces(['<', x, ' ', x, '>']) == ['<', x, ' ', x, '>']
  {
    var u := ['<', x, ' ', x, '>'];
    assert !IsSpace(x);
    assert NoAdjacentSpaces(u);
    CollapseSpacesUnchanged(u);
  }

  lemma SplitTagRetagged(x: char)
    requires 'a' <= x <= 'z'
    ensures StripTags(['<', x, ' ', x, '>']) == []
  {
    assert ['<', x, ' ', x, '>'] == "<" + [x, ' ', x] + ">" + [];
    StripTagsAt([x, ' ', x], []);
  }

  lemma {:induction false} TagCloseAt(inner: string, s: string)
    requires '>' !in inner && forall k :: 0 <= k < |inner| ==> !IsLineTerminator(inner[k])
    ensures TagClose(inner + ">" + s) == Some(|inner|)
  {
    if |inner| > 0 {
      assert (inner + ">" + s)[1..] == inner[1..] + ">" + s;
      TagCloseAt(inner[1..], s);
    }
  }

  lemma StripTagsAt(inner: string, s: string)
    requires '>' !in inner && forall k :: 0 <= k < |inner| ==> !IsLineTerminator(inner[k])
    ensures StripTags("<" + inner + ">" + s) == StripTags(s)
  {
    var t := "<" + inner + ">" + s;
    assert t[1..] == inner + ">" + s;
    TagCloseAt(inner, s);
    assert t[|inner| + 2..] == s;
  }

  lemma ReplaceKeeps(c: char, s: string, pat: string, rep: string)
    requires |pat| > 0 && c != pat[0]
    ensures ReplaceAll([c] + s, pat, rep) == [c] + ReplaceAll(s, pat, rep)
  {
    assert ([c] + s)[1..] == s;
  }

  lemma ReplaceAt(pat: string, s: string, rep: string)
    requires |pat| > 0
    ensures ReplaceAll(pat + s, pat, rep) == rep + ReplaceAll(s, pat, rep)
  {
    assert (pat + s)[..|pat|] == pat && (pat + s)[|pat|..] == s;
  }

  lemma {:induction false} NoOpenNoTag(s: string)
    requires '<' !in s
    ensures !HasTag(s)
  {
    if |s| > 0 {
      assert '<' !in s[1..] by { assert forall c :: c in s[1..] ==> c in s; }
      NoOpenNoTag(s[1..]);
    }
  }

  lemma {:induction false} NoFirstCharNoContains(s: string, q: string)
    requires |q| > 0 && q[0] !in s
    ensures !Contains(s, q)
  {
    if |s| > 0 {
      assert q[0] !in s[1..] by { assert forall c :: c in s[1..] ==> c in s; }
      NoFirstCharNoContains(s[1..], q);
    }
  }
}
