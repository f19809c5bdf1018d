/** `getPartOfDayIconAndColor`: picks the chip icon for a label by testing the
    label text in a fixed order, the first test that passes deciding. Icons
    are named after the Material icons the list uses. */
module Icons {
  import opened Strings
  import opened Calendar
  import opened MedTimestamp

  datatype Icon = WbSunny | Brightness2 | NightsStay | Today | CalendarToday | AccessTime

  datatype IconAndColor = IconAndColor(icon: Icon, color: string)

  /** The regular expression /^[A-Za-z]+day$/: one or more ASCII letters, then "day", nothing else. */
  predicate MatchesDayPattern(s: string) {
    |s| >= 4 && s[|s| - 3..] == "day" && forall k :: 0 <= k < |s| - 3 ==> IsAsciiLetter(s[k])
  }

  predicate MentionsSun(text: string) {
    Contains(text, "morning") || Contains(text, "afternoon")
  }

  predicate MentionsNight(text: string) {
    Contains(text, "night") || Contains(text, "overnight")
  }

  /** The ordered tests: sun words, then "evening", then night words, then
      exactly "Yesterday", then the weekday-shaped pattern, else the clock.
      The colour is "default" on every path. */
  function PartOfDayIconAndColor(text: string): (r: IconAndColor)
    ensures r.color == "default"
    ensures r.icon == WbSunny <==> MentionsSun(text)
    ensures r.icon == Brightness2 <==> !MentionsSun(text) && Contains(text, "evening")
    ensures r.icon == NightsStay <==>
      !MentionsSun(text) && !Contains(text, "evening") && MentionsNight(text)
    ensures r.icon == Today <==>
      !MentionsSun(text) && !Contains(text, "evening") && !MentionsNight(text)
      && text == "Yesterday"
    ensures r.icon == CalendarToday <==>
      !MentionsSun(text) && !Contains(text, "evening") && !MentionsNight(text)
      && text != "Yesterday" && MatchesDayPattern(text)
    ensures r.icon == AccessTime <==>
      !MentionsSun(text) && !Contains(text, "evening") && !MentionsNight(text)
      && text != "Yesterday" && !MatchesDayPattern(text)
  {
    if Contains(text, "morning") then IconAndColor(WbSunny, "default")
    else if Contains(text, "afternoon") then IconAndColor(WbSunny, "default")
    else if Contains(text, "evening") then IconAndColor(Brightness2, "default")
    else if Contains(text, "night") || Contains(text, "overnight") then IconAndColor(NightsStay, "default")
    else if text == "Yesterday" then IconAndColor(Today, "default")
    else if MatchesDayPattern(text) then IconAndColor(CalendarToday, "default")
    else IconAndColor(AccessTime, "default")
  }

  /** "Yesterday" also has the shape of a weekday name, so only the order of
      the tests gives it its own icon. */
  lemma YesterdayIsDayShaped()
    ensures MatchesDayPattern("Yesterday")
    ensures PartOfDayIconAndColor("Yesterday").icon == Today
  {
    assert 'i' !in "Yesterday" && 'f' !in "Yesterday";
    NoPartOfDayWordWithoutIAndF("Yesterday");
  }

  /** "overnight" contains "night", so the second half of the night test never decides anything. */
  lemma OvernightTestIsRedundant(text: string)
    requires Contains(text, "overnight")
    ensures Contains(text, "night")
  {
    var i :| OccursAt(text, "overnight", i);
    assert OccursAt(text, "overnight", i);
    assert text[i + 4..i + 9] == "overnight"[4..];
    assert OccursAt(text, "night", i + 4);
  }

  /** The icon each kind of label is meant to get, read off the structured
      label rather than its text. */
  function IconFor(l: Label): Icon {
    match l
    case This(p) =>
      (match p
       case Morning => WbSunny
       case Afternoon => WbSunny
       case Evening => Brightness2
       case Night => NightsStay
       case Overnight => NightsStay)
    case Yesterday => Today
    case Weekday(_) => CalendarToday
    case Absolute(_) => AccessTime
  }

  // ----- the text tests on each kind of rendered label -----

  /** `s` contains `sub` when `sub` starts at index `i` of it. */
  lemma ContainsWitness(s: string, sub: string, i: int)
    requires OccursAt(s, sub, i)
    ensures Contains(s, sub)
  {
  }

  /** `s` cannot contain `sub` when it lacks the character `c` that `sub` has. */
  lemma MissingChar(s: string, sub: string, c: char)
    requires c in sub && c !in s
    ensures !Contains(s, sub)
  {
    if Contains(s, sub) {
      ContainsOnlyCharsOf(s, sub, c);
    }
  }

  lemma IconOfMorningText(s: string)
    requires s == Render(This(Morning))
    ensures PartOfDayIconAndColor(s).icon == WbSunny
  {
    assert s[5..12] == "morning";
    ContainsWitness(s, "morning", 5);
  }

  lemma IconOfAfternoonText(s: string)
    requires s == Render(This(Afternoon))
    ensures PartOfDayIconAndColor(s).icon == WbSunny
  {
    assert s[5..14] == "afternoon";
    ContainsWitness(s, "afternoon", 5);
  }

  lemma IconOfEveningText(s: string)
    requires s == Render(This(Evening))
    ensures PartOfDayIconAndColor(s).icon == Brightness2
  {
    MissingChar(s, "morning", 'm');
    MissingChar(s, "afternoon", 'f');
    assert s[5..12] == "evening";
    ContainsWitness(s, "evening", 5);
  }

  lemma IconOfNightText(s: string)
    requires s == Render(This(Night))
    ensures PartOfDayIconAndColor(s).icon == NightsStay
  {
    MissingChar(s, "morning", 'm');
    MissingChar(s, "afternoon", 'f');
    MissingChar(s, "evening", 'e');
    assert s[5..10] == "night";
    ContainsWitness(s, "night", 5);
  }

  /** "evening" has two 'e's two places apart; "This overnight" has a single 'e'. */
  lemma OvernightLacksEvening(s: string)
    requires s == "This overnight"
    ensures !Contains(s, "evening")
  {
    assert 'e' !in s[..7] && 'e' !in s[8..];
    forall i | 0 <= i <= |s| - 7
      ensures !OccursAt(s, "evening", i)
    {
      if i < 7 {
        assert s[i..i + 7][0] == s[i] == s[..7][i];
      } else {
        assert s[i..i + 7][2] == s[i + 2] == s[8..][i - 6];
      }
    }
  }

  lemma IconOfOvernightText(s: string)
    requires s == Render(This(Overnight))
    ensures PartOfDayIconAndColor(s).icon == NightsStay
  {
    MissingChar(s, "morning", 'm');
    MissingChar(s, "afternoon", 'f');
    OvernightLacksEvening(s);
    assert s[9..14] == "night";
    ContainsWitness(s, "night", 9);
  }

  lemma IconOfPartOfDayText(p: PartOfDay)
    ensures PartOfDayIconAndColor(Render(This(p))).icon == IconFor(This(p))
  {
    var s := Render(This(p));
    match p
    case Morning => IconOfMorningText(s);
    case Afternoon => IconOfAfternoonText(s);
    case Evening => IconOfEveningText(s);
    case Night => IconOfNightText(s);
    case Overnight => IconOfOvernightText(s);
  }

  /** A text without the letter 'i' names no part of the day except the
      afternoon, and one without 'f' not the afternoon either. */
  lemma NoPartOfDayWordWithoutIAndF(s: string)
    requires 'i' !in s && 'f' !in s
    ensures !MentionsSun(s) && !Contains(s, "evening") && !MentionsNight(s)
  {
    if Contains(s, "morning") { ContainsOnlyCharsOf(s, "morning", 'i'); }
    if Contains(s, "afternoon") { ContainsOnlyCharsOf(s, "afternoon", 'f'); }
    if Contains(s, "evening") { ContainsOnlyCharsOf(s, "evening", 'i'); }
    if Contains(s, "night") { ContainsOnlyCharsOf(s, "night", 'i'); }
    if Contains(s, "overnight") { ContainsOnlyCharsOf(s, "overnight", 'i'); }
  }

  /** A weekday-shaped text that names no part of the day gets the calendar icon. */
  lemma IconOfDayShapedText(s: string)
    requires !MentionsSun(s) && !Contains(s, "evening") && !MentionsNight(s)
    requires s != "Yesterday" && MatchesDayPattern(s)
    ensures PartOfDayIconAndColor(s).icon == CalendarToday
  {
  }

  /** "Friday" has an 'i' and no 'g' or 'o', which every part-of-day word needs. */
  lemma IconOfFridayText(s: string)
    requires s == "Friday"
    ensures PartOfDayIconAndColor(s).icon == CalendarToday
  {
    MissingChar(s, "morning", 'g');
    MissingChar(s, "afternoon", 'o');
    MissingChar(s, "overnight", 'g');
    MissingChar(s, "evening", 'g');
    MissingChar(s, "night", 'g');
    IconOfDayShapedText(s);
  }

  /** Every weekday name but Friday has neither 'i' nor 'f'. */
  lemma IconOfPlainWeekdayText(s: string)
    requires s in ["Sunday", "Monday", "Tuesday", "Wednesday", "Thursday", "Saturday"]
    ensures PartOfDayIconAndColor(s).icon == CalendarToday
  {
    assert 'i' !in s && 'f' !in s;
    NoPartOfDayWordWithoutIAndF(s);
    assert MatchesDayPattern(s);
    IconOfDayShapedText(s);
  }

  lemma IconOfWeekdayText(w: WeekdayIndex)
    ensures PartOfDayIconAndColor(Render(Weekday(w))).icon == IconFor(Weekday(w))
  {
    var name := WeekdayName(w);
    if w == 5 {
      IconOfFridayText(name);
    } else {
      IconOfPlainWeekdayText(name);
    }
  }

  /** Month abbreviations, digits and punctuation never include 'i' or 'f'. */
  lemma DateTextLacksIAndF(d: Date)
    requires ValidDate(d)
    ensures 'i' !in DateText(d) && 'f' !in DateText(d)
  {
    var m := MonthAbbrev(d.month);
    assert m in {"Jan", "Feb", "Mar", "Apr", "May", "Jun", "Jul", "Aug", "Sep", "Oct", "Nov", "Dec"};
    var day := NatToString(d.day);
    var year := IntToString(d.year);
    assert 'i' !in day && 'f' !in day;
    assert 'i' !in year && 'f' !in year;
    assert DateText(d) == m + " " + day + ", " + year;
  }

  lemma IconOfDateText(d: Date)
    requires ValidDate(d)
    ensures PartOfDayIconAndColor(Render(Absolute(d))).icon == IconFor(Absolute(d))
  {
    var s := DateText(d);
    DateTextLacksIAndF(d);
    NoPartOfDayWordWithoutIAndF(s);
    assert s[3] == ' ';
    assert s != "Yesterday";
    assert !MatchesDayPattern(s);
  }

  /** Every label the formatter can render gets the icon meant for its kind:
      sun for morning and afternoon, moon for evening, night sky for night and
      overnight, the day icon for "Yesterday", the calendar for a weekday
      name, and the clock for a calendar date. The colour is always "default". */
  lemma IconOfRenderedLabel(l: Label)
    requires l.Absolute? ==> ValidDate(l.date)
    ensures PartOfDayIconAndColor(Render(l)) == IconAndColor(IconFor(l), "default")
  {
    match l
    case This(p) => IconOfPartOfDayText(p);
    case Yesterday => YesterdayIsDayShaped();
    case Weekday(w) => IconOfWeekdayText(w);
    case Absolute(d) => IconOfDateText(d);
  }

  /** As the list composes them: the icon of an entry's label follows the
      branch the formatter took, and only a calendar-date label falls through
      to the clock. */
  lemma IconOfFormattedEntry(t: int, now: int)
    ensures PartOfDayIconAndColor(FormatMedTimestamp(t, now).labelText).icon == IconFor(Classify(t, now))
    ensures Classify(t, now).This? ==>
      PartOfDayIconAndColor(FormatMedTimestamp(t, now).labelText).icon in {WbSunny, Brightness2, NightsStay}
    ensures Classify(t, now).Weekday? ==>
      PartOfDayIconAndColor(FormatMedTimestamp(t, now).labelText).icon == CalendarToday
    ensures PartOfDayIconAndColor(FormatMedTimestamp(t, now).labelText).icon == AccessTime <==>
      Classify(t, now).Absolute?
  {
    IconOfRenderedLabel(Classify(t, now));
  }
}
