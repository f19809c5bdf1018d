/** Worked examples of the timestamp formatter, all evaluated at
    now = 2024-03-15T14:30 local time (a Friday). Instants are milliseconds
    since 1970-01-01T00:00 local time. */
module MedTimestampScenarios {
  import opened Strings
  import opened Calendar
  import opened MedTimestamp

  /** 2024-03-15T14:30 */
  const Now: int := 1710513000000

  /** 2024-03-15T09:00, earlier the same day. */
  lemma ThisMorning()
    ensures FormatMedTimestamp(1710493200000, Now) == Formatted("This morning", "09:00")
  {
  }

  /** 2024-03-14T22:00, the previous calendar day. */
  lemma LastNight()
    ensures FormatMedTimestamp(1710453600000, Now) == Formatted("Yesterday", "22:00")
  {
  }

  /** 2024-03-12T08:00, three days back. */
  lemma ThreeDaysBack()
    ensures FormatMedTimestamp(1710230400000, Now) == Formatted("Tuesday", "08:00")
  {
    var t := 1710230400000;
    assert Day(t) == 19794 && Day(Now) == 19797;
    assert DaysAgo(t, Now) == 3;
    assert Classify(t, Now) == Weekday(2);
  }

  lemma March2024(day: int)
    requires 1 <= day <= 31
    ensures ValidDate(Date(2024, 3, day)) && DaysFromCivil(Date(2024, 3, day)) == 19782 + day
  {
    assert YearStart(2024) == 19723;
    assert DaysBeforeMonth(2024, 3) == 60;
  }

  lemma Year2024Text()
    ensures IntToString(2024) == "2024"
  {
    assert NatToString(2024) == NatToString(202) + "4";
    assert NatToString(202) == NatToString(20) + "2";
  }

  lemma March2024Text(day: int)
    requires 1 <= day <= 31
    ensures Render(Absolute(Date(2024, 3, day))) == "Mar " + NatToString(day) + ", 2024"
  {
    March2024(day);
    Year2024Text();
    assert MonthAbbrev(3) == "Mar";
  }

  lemma March1Text()
    ensures ValidDate(Date(2024, 3, 1)) && DaysFromCivil(Date(2024, 3, 1)) == 19783
    ensures Render(Absolute(Date(2024, 3, 1))) == "Mar 1, 2024"
  {
    March2024(1);
    March2024Text(1);
    assert NatToString(1) == "1";
  }

  lemma March16Text()
    ensures ValidDate(Date(2024, 3, 16)) && DaysFromCivil(Date(2024, 3, 16)) == 19798
    ensures Render(Absolute(Date(2024, 3, 16))) == "Mar 16, 2024"
  {
    March2024(16);
    March2024Text(16);
    assert NatToString(16) == NatToString(1) + "6";
  }

  /** 2024-03-01T08:00 and 2024-03-16T08:00 both read "08:00". */
  lemma EightInTheMorning(t: int)
    requires t == 1709280000000 || t == 1710576000000
    ensures Fine(t) == "08:00"
  {
    assert Hour(t) == 8 && Minute(t) == 0;
  }

  lemma TwoWeeksBackLabel()
    ensures Classify(1709280000000, Now) == Absolute(Date(2024, 3, 1))
  {
    var t := 1709280000000;
    assert Day(t) == 19783 && Day(Now) == 19797;
    assert DaysAgo(t, Now) == 14;
    var l := Classify(t, Now);
    March1Text();
    DaysFromCivilInjective(l.date, Date(2024, 3, 1));
  }

  /** 2024-03-01T08:00, fourteen days back: the calendar date. */
  lemma TwoWeeksBack()
    ensures FormatMedTimestamp(1709280000000, Now) == Formatted("Mar 1, 2024", "08:00")
  {
    TwoWeeksBackLabel();
    March1Text();
    EightInTheMorning(1709280000000);
  }

  lemma TomorrowLabel()
    ensures Classify(1710576000000, Now) == Absolute(Date(2024, 3, 16))
  {
    var t := 1710576000000;
    assert Day(t) == 19798 && Day(Now) == 19797;
    assert DaysAgo(t, Now) == -1;
    var l := Classify(t, Now);
    March16Text();
    DaysFromCivilInjective(l.date, Date(2024, 3, 16));
  }

  /** 2024-03-16T08:00, tomorrow: also the calendar date, not an error. */
  lemma Tomorrow()
    ensures FormatMedTimestamp(1710576000000, Now) == Formatted("Mar 16, 2024", "08:00")
  {
    TomorrowLabel();
    March16Text();
    EightInTheMorning(1710576000000);
  }
}
