/** `formatMedTimestamp`: classifies the moment an entry was logged, relative
    to the moment the list is rendered, into a short label ("This morning",
    "Yesterday", a weekday name or a calendar date) plus a fine "HH:MM" time.

    Time is an integer count of milliseconds since 1970-01-01T00:00 on one
    local clock with days of fixed length (no daylight-saving shifts). The
    evaluation instant `now`, which the component reads from the system clock,
    is a parameter. */
module MedTimestamp {
  import opened Strings
  import opened Calendar

  const MsPerMinute: int := 60000
  const MsPerHour: int := 3600000
  const MsPerDay: int := 86400000

  /** Local calendar day number (day 0 is 1970-01-01); floors for instants before the epoch. */
  function Day(t: int): int {
    t / MsPerDay
  }

  /** Milliseconds elapsed since local midnight. */
  function MsOfDay(t: int): (r: int)
    ensures 0 <= r < MsPerDay
    ensures t == Day(t) * MsPerDay + r
  {
    t % MsPerDay
  }

  /** `date.getHours()`. */
  function Hour(t: int): (h: int)
    ensures 0 <= h < 24
    ensures h * MsPerHour <= MsOfDay(t) < (h + 1) * MsPerHour
  {
    MsOfDay(t) / MsPerHour
  }

  /** `date.getMinutes()`. */
  function Minute(t: int): (m: int)
    ensures 0 <= m < 60
    ensures Hour(t) * MsPerHour + m * MsPerMinute <= MsOfDay(t) < Hour(t) * MsPerHour + (m + 1) * MsPerMinute
  {
    (MsOfDay(t) % MsPerHour) / MsPerMinute
  }

  /** Weekday numbering of `Date.getDay()`: 0 is Sunday. */
  type WeekdayIndex = i: int | 0 <= i < 7

  /** Weekday of a day number; 1970-01-01 was a Thursday. */
  function WeekdayOf(day: int): WeekdayIndex {
    (day + 4) % 7
  }

  /** Days between `now` and `t`, rounded down (`Math.floor` of the millisecond difference). */
  function DaysAgo(t: int, now: int): int {
    (now - t) / MsPerDay
  }

  datatype PartOfDay = Overnight | Morning | Afternoon | Evening | Night

  /** The cut-offs of the part-of-day chain, checked in order. The buckets are
      the half-open hour ranges [0,5), [5,12), [12,17), [17,21) and [21,24):
      each hour lies in exactly one of them. */
  function PartOfDayOf(h: int): (p: PartOfDay)
    requires 0 <= h < 24
    ensures p == Overnight <==> 0 <= h < 5
    ensures p == Morning <==> 5 <= h < 12
    ensures p == Afternoon <==> 12 <= h < 17
    ensures p == Evening <==> 17 <= h < 21
    ensures p == Night <==> 21 <= h < 24
  {
    if h < 5 then Overnight
    else if h < 12 then Morning
    else if h < 17 then Afternoon
    else if h < 21 then Evening
    else Night
  }

  function PartName(p: PartOfDay): string {
    match p
    case Overnight => "overnight"
    case Morning => "morning"
    case Afternoon => "afternoon"
    case Evening => "evening"
    case Night => "night"
  }

  /** The structured form of the label: which branch of the formatter produced it. */
  datatype Label =
    | This(part: PartOfDay)
    | Yesterday
    | Weekday(weekday: WeekdayIndex)
    | Absolute(date: Date)

  /** The branch chain of the formatter: today, else yesterday, else within
      the last week by elapsed days, else the calendar date. */
  function Classify(t: int, now: int): (l: Label)
    ensures l.This? <==> Day(t) == Day(now)
    ensures l.This? ==> l.part == PartOfDayOf(Hour(t))
    ensures l.Yesterday? <==> Day(t) != Day(now) && Day(t) == Day(now) - 1
    ensures l.Weekday? <==>
      Day(t) != Day(now) && Day(t) != Day(now) - 1 && 0 < DaysAgo(t, now) < 7
    ensures l.Weekday? ==> l.weekday == WeekdayOf(Day(t))
    ensures l.Absolute? <==>
      Day(t) != Day(now) && Day(t) != Day(now) - 1 && !(0 < DaysAgo(t, now) < 7)
    ensures l.Absolute? ==> ValidDate(l.date) && DaysFromCivil(l.date) == Day(t)
  {
    var isToday := Day(t) == Day(now);
    var isYesterday := Day(t) == Day(now) - 1;
    if isToday then This(PartOfDayOf(Hour(t)))
    else if isYesterday then Yesterday
    else
      var daysAgo := DaysAgo(t, now);
      if daysAgo < 7 && daysAgo > 0 then Weekday(WeekdayOf(Day(t)))
      else Absolute(CivilFromDays(Day(t)))
  }

  // ----- rendering (en-US) -----

  function WeekdayName(w: WeekdayIndex): string {
    ["Sunday", "Monday", "Tuesday", "Wednesday", "Thursday", "Friday", "Saturday"][w]
  }

  function MonthAbbrev(m: int): string
    requires 1 <= m <= 12
  {
    ["Jan", "Feb", "Mar", "Apr", "May", "Jun", "Jul", "Aug", "Sep", "Oct", "Nov", "Dec"][m - 1]
  }

  /** "Mar 4, 2024": short month, numeric day, numeric year. */
  function DateText(d: Date): string
    requires ValidDate(d)
  {
    MonthAbbrev(d.month) + " " + NatToString(d.day) + ", " + IntToString(d.year)
  }

  /** The label text the list shows. */
  function Render(l: Label): string
    requires l.Absolute? ==> ValidDate(l.date)
  {
    match l
    case This(p) => "This " + PartName(p)
    case Yesterday => "Yesterday"
    case Weekday(w) => WeekdayName(w)
    case Absolute(d) => DateText(d)
  }

  /** The fine print: two-digit hour, colon, two-digit minute. */
  function Fine(t: int): string {
    Pad2(Hour(t)) + ":" + Pad2(Minute(t))
  }

  /** Reads the hour and minute back out of a fine "HH:MM" string. */
  function ParseFine(s: string): (int, int)
    requires |s| == 5
  {
    (DigitValue(s[0]) * 10 + DigitValue(s[1]), DigitValue(s[3]) * 10 + DigitValue(s[4]))
  }

  datatype Formatted = Formatted(labelText: string, fine: string)

  /** `formatMedTimestamp` with the clock reading passed in. */
  function FormatMedTimestamp(t: int, now: int): (r: Formatted)
    ensures r.labelText == Render(Classify(t, now))
    ensures |r.labelText| > 0 && |r.fine| == 5
  {
    Formatted(Render(Classify(t, now)), Fine(t))
  }

  // ----- properties of the classifier -----

  /** The elapsed-day count is the calendar-day difference, less one when the
      entry's time of day is later than now's. */
  lemma DaysAgoFromCalendarDays(t: int, now: int)
    ensures DaysAgo(t, now) ==
      (Day(now) - Day(t)) - (if MsOfDay(now) < MsOfDay(t) then 1 else 0)
  {
    var dd := Day(now) - Day(t);
    var diff := MsOfDay(now) - MsOfDay(t);
    assert now - t == dd * MsPerDay + diff;
    if diff < 0 {
      assert now - t == (dd - 1) * MsPerDay + (diff + MsPerDay);
    }
  }

  /** An entry two to six calendar days back is named by its weekday. */
  lemma RecentDaysGetWeekday(t: int, now: int)
    requires 2 <= Day(now) - Day(t) <= 6
    ensures Classify(t, now) == Weekday(WeekdayOf(Day(t)))
    ensures FormatMedTimestamp(t, now).labelText == WeekdayName(WeekdayOf(Day(t)))
  {
    DaysAgoFromCalendarDays(t, now);
  }

  /** A weekday label is only ever given to an entry two to seven calendar days back. */
  lemma WeekdayWindow(t: int, now: int)
    requires Classify(t, now).Weekday?
    ensures 2 <= Day(now) - Day(t) <= 7
  {
    DaysAgoFromCalendarDays(t, now);
  }

  /** Seven calendar days back, at a later time of day than now, less than
      seven full days have elapsed: the entry is labelled with the weekday
      name of today itself. */
  lemma SameWeekdayAWeekAgo(t: int, now: int)
    requires Day(now) - Day(t) == 7 && MsOfDay(now) < MsOfDay(t)
    ensures Classify(t, now) == Weekday(WeekdayOf(Day(now)))
  {
    DaysAgoFromCalendarDays(t, now);
  }

  /** Seven calendar days back at the same or an earlier time of day, or any
      more days back, the entry shows its calendar date. */
  lemma OldEntriesGetDate(t: int, now: int)
    requires Day(now) - Day(t) >= 8 || (Day(now) - Day(t) == 7 && MsOfDay(t) <= MsOfDay(now))
    ensures Classify(t, now) == Absolute(CivilFromDays(Day(t)))
  {
    DaysAgoFromCalendarDays(t, now);
  }

  /** A future entry on a later calendar day is not an error: it shows its calendar date. */
  lemma FutureEntriesGetDate(t: int, now: int)
    requires now < t && Day(t) != Day(now)
    ensures Classify(t, now) == Absolute(CivilFromDays(Day(t)))
  {
    DaysAgoFromCalendarDays(t, now);
  }

  /** The fine text is "HH:MM" and reads back as the entry's own hour and
      minute, whatever now is and whichever label branch is taken. */
  lemma FineShowsHourAndMinute(t: int, now: int)
    ensures FormatMedTimestamp(t, now).fine == Fine(t)
    ensures Fine(t)[2] == ':'
    ensures ParseFine(Fine(t)) == (Hour(t), Minute(t))
  {
  }

  /** Two instants with the same hour and minute get the same fine text. */
  lemma FineDependsOnlyOnClockReading(t1: int, t2: int, now1: int, now2: int)
    requires Hour(t1) == Hour(t2) && Minute(t1) == Minute(t2)
    ensures FormatMedTimestamp(t1, now1).fine == FormatMedTimestamp(t2, now2).fine
  {
  }

  /** The same branch chain restated over calendar days: the number of
      midnights between the entry and now, and, seven days back, which of
      the two times of day is later. */
  function ClassifyByCalendarDays(t: int, now: int): Label {
    var back := Day(now) - Day(t);
    if back == 0 then This(PartOfDayOf(Hour(t)))
    else if back == 1 then Yesterday
    else if 2 <= back <= 6 || (back == 7 && MsOfDay(now) < MsOfDay(t)) then Weekday(WeekdayOf(Day(t)))
    else Absolute(CivilFromDays(Day(t)))
  }

  /** The formatter's elapsed-time test and the calendar-day description agree on every input. */
  lemma ClassifyAgreesWithCalendarDays(t: int, now: int)
    ensures Classify(t, now) == ClassifyByCalendarDays(t, now)
  {
    DaysAgoFromCalendarDays(t, now);
  }

  // ----- the label text determines the label -----

  lemma DateTextInjective(d1: Date, d2: Date)
    requires ValidDate(d1) && ValidDate(d2)
    requires DateText(d1) == DateText(d2)
    ensures d1 == d2
  {
    DateTextParts(d1);
    DateTextParts(d2);
    MonthAbbrevInjective(d1.month, d2.month);
    SplitAfterDigits(NatToString(d1.day), IntToString(d1.year), NatToString(d2.day), IntToString(d2.year), ", ");
    NatToStringInjective(d1.day, d2.day);
    IntToStringInjective(d1.year, d2.year);
  }

  /** A date's text is the month's three letters, a space, then the day's
      digits, a comma, a space and the year. */
  lemma DateTextParts(d: Date)
    requires ValidDate(d)
    ensures |DateText(d)| > 4
    ensures DateText(d)[..3] == MonthAbbrev(d.month)
    ensures DateText(d)[4..] == NatToString(d.day) + ", " + IntToString(d.year)
  {
    var m := MonthAbbrev(d.month);
    var rest := NatToString(d.day) + ", " + IntToString(d.year);
    assert |m| == 3;
    assert DateText(d) == m + ([' '] + rest);
  }

  /** The twelve abbreviations are distinct. */
  lemma MonthAbbrevInjective(m1: int, m2: int)
    requires 1 <= m1 <= 12 && 1 <= m2 <= 12
    requires MonthAbbrev(m1) == MonthAbbrev(m2)
    ensures m1 == m2
  {
  }

  /** A calendar date's text has a space at index 3; no other label's text does. */
  lemma OnlyDatesHaveSpaceAtThree(l: Label)
    requires l.Absolute? ==> ValidDate(l.date)
    ensures |Render(l)| > 3
    ensures Render(l)[3] == ' ' <==> l.Absolute?
  {
    match l
    case This(p) =>
    case Yesterday =>
    case Weekday(w) =>
      assert WeekdayName(w) in ["Sunday", "Monday", "Tuesday", "Wednesday", "Thursday", "Friday", "Saturday"];
    case Absolute(d) =>
  }

  /** Only the part-of-day labels start with "This ". */
  lemma OnlyTodayStartsWithThis(l: Label)
    requires !l.Absolute?
    ensures |Render(l)| >= 5
    ensures Render(l)[..5] == "This " <==> l.This?
  {
    match l
    case This(p) =>
    case Yesterday =>
      assert Render(l)[4] != ' ';
    case Weekday(w) =>
      var n := WeekdayName(w);
      assert n in ["Sunday", "Monday", "Tuesday", "Wednesday", "Thursday", "Friday", "Saturday"];
      assert n[4] != ' ';
  }

  /** Distinct labels render to distinct texts, so the text a list entry
      shows tells which branch of the formatter produced it. */
  lemma RenderInjective(l1: Label, l2: Label)
    requires l1.Absolute? ==> ValidDate(l1.date)
    requires l2.Absolute? ==> ValidDate(l2.date)
    requires Render(l1) == Render(l2)
    ensures l1 == l2
  {
    OnlyDatesHaveSpaceAtThree(l1);
    OnlyDatesHaveSpaceAtThree(l2);
    if l1.Absolute? {
      DateTextInjective(l1.date, l2.date);
    } else {
      OnlyTodayStartsWithThis(l1);
      OnlyTodayStartsWithThis(l2);
      if l1.This? {
        assert Render(l1)[5..] == PartName(l1.part);
        assert Render(l2)[5..] == PartName(l2.part);
      }
    }
  }
}
