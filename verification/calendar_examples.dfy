/** The calendar's worked examples: the three scenarios of the source's
    unit tests, the weekly rhythm without exclusions, and the two places
    where the export's header dates part ways with the computed calendar.

    Day numbers: 20332 is Monday 2025-09-01, so 20337 is Saturday
    2025-09-06, 20339 Monday 09-08, 20345 Sunday 09-14, 20346 Monday 09-15
    and 20353 Monday 09-22. */
module CalendarExamples {
  import opened Civil
  import opened Calendar

  /** A week is determined by its first day and its fifth working day. */
  lemma WeekIs(s: int, e: int, ps: seq<NonAcademicPeriod>)
    requires IsWorkingDay(s, ps) && s < e && IsWorkingDay(e, ps)
    requires WorkingDaysBetween(s, e, ps) == 4
    ensures BuildWeek(s, ps) == WeekDateInfo(s, e)
  {
    NextWorkingDayFixpoint(s, ps);
    WorkingDayAtCountUnique(s, CountForward(s, 4, ps), e, ps);
  }

  /** The weekdays of the six days after s, one step at a time. */
  lemma WeekdaysAfter(s: int)
    ensures Weekday(s + 1) == (Weekday(s) + 1) % 7 && Weekday(s + 2) == (Weekday(s + 1) + 1) % 7
    ensures Weekday(s + 3) == (Weekday(s + 2) + 1) % 7 && Weekday(s + 4) == (Weekday(s + 3) + 1) % 7
    ensures Weekday(s + 5) == (Weekday(s + 4) + 1) % 7 && Weekday(s + 6) == (Weekday(s + 5) + 1) % 7
  {
    WeekdaySuccessor(s);
    WeekdaySuccessor(s + 1);
    WeekdaySuccessor(s + 2);
    WeekdaySuccessor(s + 3);
    WeekdaySuccessor(s + 4);
    WeekdaySuccessor(s + 5);
  }

  lemma FromMonday(s: int)
    requires Weekday(s) == 0
    ensures WorkingDaysBetween(s, s + 4, []) == 4
  {
    var ps: seq<NonAcademicPeriod> := [];
    WeekdaysAfter(s);
    assert WorkingDaysBetween(s, s + 1, ps) == 1;
    assert WorkingDaysBetween(s, s + 2, ps) == 2;
    assert WorkingDaysBetween(s, s + 3, ps) == 3;
  }

  lemma FromTuesday(s: int)
    requires Weekday(s) == 1
    ensures WorkingDaysBetween(s, s + 6, []) == 4
  {
    var ps: seq<NonAcademicPeriod> := [];
    WeekdaysAfter(s);
    assert WorkingDaysBetween(s, s + 1, ps) == 1;
    assert WorkingDaysBetween(s, s + 2, ps) == 2;
    assert WorkingDaysBetween(s, s + 3, ps) == 3;
    assert WorkingDaysBetween(s, s + 4, ps) == 3;
    assert WorkingDaysBetween(s, s + 5, ps) == 3;
  }

  lemma FromWednesday(s: int)
    requires Weekday(s) == 2
    ensures WorkingDaysBetween(s, s + 6, []) == 4
  {
    var ps: seq<NonAcademicPeriod> := [];
    WeekdaysAfter(s);
    assert WorkingDaysBetween(s, s + 1, ps) == 1;
    assert WorkingDaysBetween(s, s + 2, ps) == 2;
    assert WorkingDaysBetween(s, s + 3, ps) == 2;
    assert WorkingDaysBetween(s, s + 4, ps) == 2;
    assert WorkingDaysBetween(s, s + 5, ps) == 3;
  }

  lemma FromThursday(s: int)
    requires Weekday(s) == 3
    ensures WorkingDaysBetween(s, s + 6, []) == 4
  {
    var ps: seq<NonAcademicPeriod> := [];
    WeekdaysAfter(s);
    assert WorkingDaysBetween(s, s + 1, ps) == 1;
    assert WorkingDaysBetween(s, s + 2, ps) == 1;
    assert WorkingDaysBetween(s, s + 3, ps) == 1;
    assert WorkingDaysBetween(s, s + 4, ps) == 2;
    assert WorkingDaysBetween(s, s + 5, ps) == 3;
  }

  lemma FromFriday(s: int)
    requires Weekday(s) == 4
    ensures WorkingDaysBetween(s, s + 6, []) == 4
  {
    var ps: seq<NonAcademicPeriod> := [];
    WeekdaysAfter(s);
    assert WorkingDaysBetween(s, s + 1, ps) == 0;
    assert WorkingDaysBetween(s, s + 2, ps) == 0;
    assert WorkingDaysBetween(s, s + 3, ps) == 1;
    assert WorkingDaysBetween(s, s + 4, ps) == 2;
    assert WorkingDaysBetween(s, s + 5, ps) == 3;
  }

  /** Without exclusions the fourth working day after a weekday is four
      days later from a Monday and six days later otherwise. */
  lemma NoExclusionsWeekEnd(s: int)
    requires !IsWeekend(s)
    ensures var e := if Weekday(s) == 0 then s + 4 else s + 6;
      IsWorkingDay(e, []) && WorkingDaysBetween(s, e, []) == 4
  {
    match Weekday(s)
    case 0 => FromMonday(s);
    case 1 => FromTuesday(s);
    case 2 => FromWednesday(s);
    case 3 => FromThursday(s);
    case 4 => FromFriday(s);
  }

  /** Without exclusions a week that starts on a weekday is followed by a
      week starting seven days later, on the same weekday. */
  lemma {:induction false} NoExclusionsStep(s: int)
    requires !IsWeekend(s)
    ensures NextWorkingDay(BuildWeek(s, []).rangeEnd + 1, []) == s + 7
  {
    var ps: seq<NonAcademicPeriod> := [];
    var e := if Weekday(s) == 0 then s + 4 else s + 6;
    NoExclusionsWeekEnd(s);
    WeekIs(s, e, ps);
    WeekdaySuccessor(s);
    WeekdaySuccessor(s + 4);
    WeekdaySuccessor(s + 5);
    assert IsFirstWorkingDayFrom(e + 1, s + 7, ps);
    FirstWorkingDayUnique(e + 1, NextWorkingDay(e + 1, ps), s + 7, ps);
  }

  /** Without exclusions, week k of a calendar cursor that is a weekday
      starts exactly 7k days later. */
  lemma {:induction false} NoExclusionsWeekly(s: int, n: nat, k: int)
    requires !IsWeekend(s)
    requires 0 <= k < n
    ensures WeeksFrom(s, n, [])[k].startDate == s + 7 * k
    decreases n
  {
    var ps: seq<NonAcademicPeriod> := [];
    NextWorkingDayFixpoint(s, ps);
    if k > 0 {
      NoExclusionsStep(s);
      WeekdaySuccessor(s);
      NoExclusionsWeekly(s + 7, n - 1, k - 1);
    }
  }

  /** Monday 2025-09-01, three weeks, no exclusions: weeks start on
      09-01, 09-08 and 09-15. */
  lemma ScenarioStartOnMonday()
    ensures |CalculateWeekDates(20332, 3, [])| == 3
    ensures CalculateWeekDates(20332, 3, [])[0].startDate == 20332
    ensures CalculateWeekDates(20332, 3, [])[1].startDate == 20339
    ensures CalculateWeekDates(20332, 3, [])[2].startDate == 20346
  {
    var ps: seq<NonAcademicPeriod> := [];
    NextWorkingDayFixpoint(20332, ps);
    NoExclusionsWeekly(20332, 3, 0);
    NoExclusionsWeekly(20332, 3, 1);
    NoExclusionsWeekly(20332, 3, 2);
  }

  /** Saturday 2025-09-06, two weeks, no exclusions: the first week is
      pushed to Monday 09-08, the second starts on 09-15. */
  lemma ScenarioStartOnSaturday()
    ensures |CalculateWeekDates(20337, 2, [])| == 2
    ensures CalculateWeekDates(20337, 2, [])[0].startDate == 20339
    ensures CalculateWeekDates(20337, 2, [])[1].startDate == 20346
  {
    var ps: seq<NonAcademicPeriod> := [];
    assert IsFirstWorkingDayFrom(20337, 20339, ps);
    FirstWorkingDayUnique(20337, NextWorkingDay(20337, ps), 20339, ps);
    NoExclusionsWeekly(20339, 2, 0);
    NoExclusionsWeekly(20339, 2, 1);
  }

  /** The receso 09-08..09-14 (inclusive). */
  function Receso(): seq<NonAcademicPeriod> {
    [NonAcademicPeriod(20339, 20345, "Receso")]
  }

  lemma RecesoFirstWeek()
    ensures BuildWeek(20332, Receso()) == WeekDateInfo(20332, 20336)
  {
    var ps := Receso();
    assert WorkingDaysBetween(20332, 20332, ps) == 0;
    assert WorkingDaysBetween(20332, 20333, ps) == 1;
    assert WorkingDaysBetween(20332, 20334, ps) == 2;
    assert WorkingDaysBetween(20332, 20335, ps) == 3;
    assert WorkingDaysBetween(20332, 20336, ps) == 4;
    WeekIs(20332, 20336, ps);
  }

  lemma RecesoSkipped()
    ensures NextWorkingDay(20337, Receso()) == 20346
  {
    var ps := Receso();
    forall x | 20337 <= x < 20346
      ensures !IsWorkingDay(x, ps)
    {
      if x < 20339 {
        assert Weekday(x) == 5 || Weekday(x) == 6;
      } else {
        assert ps[0].start <= x <= ps[0].end;
      }
    }
    assert IsFirstWorkingDayFrom(20337, 20346, ps);
    FirstWorkingDayUnique(20337, NextWorkingDay(20337, ps), 20346, ps);
  }

  lemma RecesoSecondWeek()
    ensures BuildWeek(20346, Receso()) == WeekDateInfo(20346, 20350)
    ensures NextWorkingDay(20351, Receso()) == 20353
  {
    var ps := Receso();
    assert WorkingDaysBetween(20346, 20346, ps) == 0;
    assert WorkingDaysBetween(20346, 20347, ps) == 1;
    assert WorkingDaysBetween(20346, 20348, ps) == 2;
    assert WorkingDaysBetween(20346, 20349, ps) == 3;
    assert WorkingDaysBetween(20346, 20350, ps) == 4;
    WeekIs(20346, 20350, ps);
    assert IsFirstWorkingDayFrom(20351, 20353, ps);
    FirstWorkingDayUnique(20351, NextWorkingDay(20351, ps), 20353, ps);
  }

  /** Monday 2025-09-01, three weeks, receso 09-08..09-14: the second week
      skips the receso and starts on 09-15, the third on 09-22. */
  lemma ScenarioSkipsReceso()
    ensures |CalculateWeekDates(20332, 3, Receso())| == 3
    ensures CalculateWeekDates(20332, 3, Receso())[0].startDate == 20332
    ensures CalculateWeekDates(20332, 3, Receso())[1].startDate == 20346
    ensures CalculateWeekDates(20332, 3, Receso())[2].startDate == 20353
  {
    var ps := Receso();
    var ws := CalculateWeekDates(20332, 3, ps);
    RecesoFirstWeek();
    RecesoSkipped();
    RecesoSecondWeek();
    FirstWorkingDayUnique(20332, ws[0].startDate, 20332, ps);
    WorkingDayAtCountUnique(20332, ws[0].rangeEnd, 20336, ps);
    FirstWorkingDayUnique(20337, ws[1].startDate, 20346, ps);
    WorkingDayAtCountUnique(20346, ws[1].rangeEnd, 20350, ps);
    FirstWorkingDayUnique(20351, ws[2].startDate, 20353, ps);
  }

  /** A holiday on Wednesday 09-03. */
  function MidweekHoliday(): seq<NonAcademicPeriod> {
    [NonAcademicPeriod(20334, 20334, "Feriado")]
  }

  lemma MidweekHolidayWeek()
    ensures BuildWeek(20332, MidweekHoliday()) == WeekDateInfo(20332, 20339)
    ensures NextWorkingDay(20337, MidweekHoliday()) == 20339
  {
    var ps := MidweekHoliday();
    assert WorkingDaysBetween(20332, 20332, ps) == 0;
    assert WorkingDaysBetween(20332, 20333, ps) == 1;
    assert WorkingDaysBetween(20332, 20334, ps) == 1;
    assert WorkingDaysBetween(20332, 20335, ps) == 2;
    assert WorkingDaysBetween(20332, 20336, ps) == 3;
    assert WorkingDaysBetween(20332, 20337, ps) == 3;
    assert WorkingDaysBetween(20332, 20338, ps) == 3;
    assert WorkingDaysBetween(20332, 20339, ps) == 4;
    WeekIs(20332, 20339, ps);
    assert IsFirstWorkingDayFrom(20337, 20339, ps);
    FirstWorkingDayUnique(20337, NextWorkingDay(20337, ps), 20339, ps);
  }

  /** With a midweek holiday the computed week runs Monday 09-01 to Monday
      09-08, yet the header label of that week is drawn from `start + 4` =
      Friday 09-05; and the Consultas block, searched from the day after
      `start + 4` of the last lective week, starts on Monday 09-08, the last
      working day of that same lective week. */
  lemma HolidayShiftsRangeButNotLabels()
    ensures CalculateWeekDates(20332, 1, MidweekHoliday())[0] == WeekDateInfo(20332, 20339)
    ensures CalculateWeekDates(20332, 1, MidweekHoliday())[0].startDate + 4 == 20336
    ensures CalculateFinalWeeksDates(20332, 1, MidweekHoliday())[0].startDate == 20339
  {
    var ps := MidweekHoliday();
    var ws := CalculateWeekDates(20332, 1, ps);
    MidweekHolidayWeek();
    FirstWorkingDayUnique(20332, ws[0].startDate, 20332, ps);
    WorkingDayAtCountUnique(20332, ws[0].rangeEnd, 20339, ps);
    var fs := CalculateFinalWeeksDates(20332, 1, ps);
    FirstWorkingDayUnique(20337, fs[0].startDate, 20339, ps);
  }
}
