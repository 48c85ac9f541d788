/** The lective calendar of the balance export: which days are working
    days, where each lective week starts and ends, and where the two
    trailing blocks ("Consultas" and "Exámenes Finales") fall.

    Dates are day numbers (see module Civil). Each non-academic period is
    an inclusive range of days; periods may overlap and come in any order. */
module Calendar {
  import opened Civil

  datatype NonAcademicPeriod = NonAcademicPeriod(start: int, end: int, name: string)

  /** One entry of the calendar: the first working day of a block, and the
      day its range display ends on (the 4th working day after the start). */
  datatype WeekDateInfo = WeekDateInfo(startDate: int, rangeEnd: int)

  // ---------------------------------------------------------------------
  // Working days
  // ---------------------------------------------------------------------

  predicate IsWeekend(d: int) {
    Weekday(d) == 5 || Weekday(d) == 6
  }

  /** Scans the periods in order and stops at the first one containing the
      day; the result is whether ANY period contains it. */
  function IsInNonAcademicPeriod(d: int, ps: seq<NonAcademicPeriod>): (r: bool)
    ensures r <==> exists i :: 0 <= i < |ps| && ps[i].start <= d <= ps[i].end
  {
    if |ps| == 0 then false
    else if ps[0].start <= d <= ps[0].end then true
    else
      var r := IsInNonAcademicPeriod(d, ps[1..]);
      assert forall i :: 1 <= i < |ps| ==> ps[1..][i - 1] == ps[i];
      r
  }

  predicate IsWorkingDay(d: int, ps: seq<NonAcademicPeriod>) {
    !IsWeekend(d) && !IsInNonAcademicPeriod(d, ps)
  }

  /** `r` is the first working day on or after `d`. */
  predicate IsFirstWorkingDayFrom(d: int, r: int, ps: seq<NonAcademicPeriod>) {
    d <= r && IsWorkingDay(r, ps) && forall x :: d <= x < r ==> !IsWorkingDay(x, ps)
  }

  /** The latest end of any period: no day after it is excluded. */
  function Horizon(ps: seq<NonAcademicPeriod>): (h: int)
    ensures forall i :: 0 <= i < |ps| ==> ps[i].end <= h
  {
    if |ps| == 0 then 0
    else
      var h := Horizon(ps[1..]);
      assert forall i :: 1 <= i < |ps| ==> ps[1..][i - 1] == ps[i];
      if ps[0].end > h then ps[0].end else h
  }

  /** An upper bound on the number of non-working days from `d` on:
      up to the horizon every day may be excluded, after it only a weekend
      can intervene. */
  function Slack(d: int, ps: seq<NonAcademicPeriod>): nat {
    var h := Horizon(ps);
    if d <= h then h - d + 3
    else if Weekday(d) == 5 then 2
    else if Weekday(d) == 6 then 1
    else 0
  }

  /** Stepping past a non-working day uses up slack. */
  lemma SlackDecreases(d: int, ps: seq<NonAcademicPeriod>)
    requires !IsWorkingDay(d, ps)
    ensures Slack(d + 1, ps) < Slack(d, ps)
  {
    WeekdaySuccessor(d);
  }

  /** `get_next_working_day`: step forward one day at a time until the day
      is neither a weekend day nor inside a period. */
  function NextWorkingDay(d: int, ps: seq<NonAcademicPeriod>): (r: int)
    ensures IsFirstWorkingDayFrom(d, r, ps)
    decreases Slack(d, ps)
  {
    if IsWorkingDay(d, ps) then d
    else
      SlackDecreases(d, ps);
      NextWorkingDay(d + 1, ps)
  }

  /** There is only one first working day. */
  lemma FirstWorkingDayUnique(d: int, r1: int, r2: int, ps: seq<NonAcademicPeriod>)
    requires IsFirstWorkingDayFrom(d, r1, ps) && IsFirstWorkingDayFrom(d, r2, ps)
    ensures r1 == r2
  {
  }

  /** A working day is its own next working day, and only a working day is. */
  lemma NextWorkingDayFixpoint(d: int, ps: seq<NonAcademicPeriod>)
    ensures NextWorkingDay(d, ps) == d <==> IsWorkingDay(d, ps)
  {
  }

  /** Looking for the next working day twice finds the same day. */
  lemma NextWorkingDayIdempotent(d: int, ps: seq<NonAcademicPeriod>)
    ensures NextWorkingDay(NextWorkingDay(d, ps), ps) == NextWorkingDay(d, ps)
  {
    NextWorkingDayFixpoint(NextWorkingDay(d, ps), ps);
  }

  // ---------------------------------------------------------------------
  // Counting working days
  // ---------------------------------------------------------------------

  /** The number of working days in the half-open range (a, b]. */
  function WorkingDaysBetween(a: int, b: int, ps: seq<NonAcademicPeriod>): nat
    decreases b - a
  {
    if b <= a then 0
    else WorkingDaysBetween(a, b - 1, ps) + (if IsWorkingDay(b, ps) then 1 else 0)
  }

  /** Counts over adjacent ranges add up. */
  lemma {:induction false} WorkingDaysSplit(a: int, m: int, b: int, ps: seq<NonAcademicPeriod>)
    requires a <= m <= b
    ensures WorkingDaysBetween(a, b, ps) == WorkingDaysBetween(a, m, ps) + WorkingDaysBetween(m, b, ps)
    decreases b - m
  {
    if m < b {
      WorkingDaysSplit(a, m, b - 1, ps);
    }
  }

  /** A range holding a single working day, at its end, counts one. */
  lemma {:induction false} WorkingDaysUpToFirst(m: int, r: int, ps: seq<NonAcademicPeriod>)
    requires IsFirstWorkingDayFrom(m + 1, r, ps)
    ensures WorkingDaysBetween(m, r, ps) == 1
  {
    WorkingDaysNone(m, r - 1, ps);
  }

  /** A range without working days counts zero. */
  lemma {:induction false} WorkingDaysNone(a: int, b: int, ps: seq<NonAcademicPeriod>)
    requires forall x :: a < x <= b ==> !IsWorkingDay(x, ps)
    ensures WorkingDaysBetween(a, b, ps) == 0
    decreases b - a
  {
    if a < b {
      WorkingDaysNone(a, b - 1, ps);
    }
  }

  /** The count grows by one exactly at each working day, so a positive
      count with a working day at the end fixes the end. */
  lemma {:induction false} WorkingDayAtCountUnique(a: int, b1: int, b2: int, ps: seq<NonAcademicPeriod>)
    requires a <= b1 && a <= b2
    requires IsWorkingDay(b1, ps) && IsWorkingDay(b2, ps)
    requires WorkingDaysBetween(a, b1, ps) == WorkingDaysBetween(a, b2, ps)
    ensures b1 == b2
  {
    if b1 < b2 {
      WorkingDaysSplit(a, b1, b2, ps);
      WorkingDaysSplit(b1, b2 - 1, b2, ps);
    } else if b2 < b1 {
      WorkingDaysSplit(a, b2, b1, ps);
      WorkingDaysSplit(b2, b1 - 1, b1, ps);
    }
  }

  /** The week-end search loop of `calculate_week_dates`: move forward one
      day at a time, counting the working days met, until `remaining` more
      have been found. The result is the `remaining`-th working day after
      `day`. */
  function CountForward(day: int, remaining: nat, ps: seq<NonAcademicPeriod>): (r: int)
    ensures remaining == 0 ==> r == day
    ensures remaining > 0 ==> day < r && IsWorkingDay(r, ps)
    ensures WorkingDaysBetween(day, r, ps) == remaining
    decreases remaining, Slack(day + 1, ps)
  {
    if remaining == 0 then day
    else
      var next := day + 1;
      if IsWorkingDay(next, ps) then
        var r := CountForward(next, remaining - 1, ps);
        WorkingDaysSplit(day, next, r, ps);
        r
      else
        SlackDecreases(next, ps);
        var r := CountForward(next, remaining, ps);
        WorkingDaysSplit(day, next, r, ps);
        r
  }

  // ---------------------------------------------------------------------
  // Lective weeks
  // ---------------------------------------------------------------------

  /** What every calendar entry satisfies: it starts on a working day and its
      range ends on the 4th working day after that, so that the range covers
      five working days. */
  predicate IsLectiveWeek(w: WeekDateInfo, ps: seq<NonAcademicPeriod>) {
    && IsWorkingDay(w.startDate, ps)
    && w.startDate < w.rangeEnd
    && IsWorkingDay(w.rangeEnd, ps)
    && WorkingDaysBetween(w.startDate, w.rangeEnd, ps) == 4
  }

  /** One iteration of the week loop: the week starts at the next working
      day from the cursor and ends 4 working days later. */
  function BuildWeek(cursor: int, ps: seq<NonAcademicPeriod>): (w: WeekDateInfo)
    ensures IsFirstWorkingDayFrom(cursor, w.startDate, ps)
    ensures IsLectiveWeek(w, ps)
  {
    var start := NextWorkingDay(cursor, ps);
    WeekDateInfo(start, CountForward(start, 4, ps))
  }

  /** Entry k + 1 starts at the first working day after the range of entry k. */
  predicate Consecutive(ws: seq<WeekDateInfo>, ps: seq<NonAcademicPeriod>) {
    forall k :: 0 <= k < |ws| - 1 ==> IsFirstWorkingDayFrom(ws[k].rangeEnd + 1, ws[k + 1].startDate, ps)
  }

  /** `n` iterations of the week loop from `cursor`; after each week the
      cursor moves to the next working day after the week's range. */
  function WeeksFrom(cursor: int, n: nat, ps: seq<NonAcademicPeriod>): (ws: seq<WeekDateInfo>)
    ensures |ws| == n
    ensures n > 0 ==> IsFirstWorkingDayFrom(cursor, ws[0].startDate, ps)
    ensures forall k :: 0 <= k < n ==> IsLectiveWeek(ws[k], ps)
    ensures Consecutive(ws, ps)
    decreases n
  {
    if n == 0 then []
    else
      var w := BuildWeek(cursor, ps);
      var next := NextWorkingDay(w.rangeEnd + 1, ps);
      var rest := WeeksFrom(next, n - 1, ps);
      assert n > 1 ==> rest[0].startDate == next by {
        if n > 1 {
          FirstWorkingDayUnique(next, rest[0].startDate, next, ps);
        }
      }
      [w] + rest
  }

  /** `calculate_week_dates`: `totalWeeks` lective weeks from the first
      working day on or after `start`. A negative count makes the source
      panic when it reserves the vector, so it is excluded. */
  function CalculateWeekDates(start: int, totalWeeks: int, ps: seq<NonAcademicPeriod>): (ws: seq<WeekDateInfo>)
    requires totalWeeks >= 0
    ensures |ws| == totalWeeks
    ensures totalWeeks > 0 ==> IsFirstWorkingDayFrom(start, ws[0].startDate, ps)
    ensures forall k :: 0 <= k < |ws| ==> IsLectiveWeek(ws[k], ps)
    ensures Consecutive(ws, ps)
  {
    var first := NextWorkingDay(start, ps);
    var ws := WeeksFrom(first, totalWeeks, ps);
    assert totalWeeks > 0 ==> ws[0].startDate == first by {
      if totalWeeks > 0 {
        FirstWorkingDayUnique(first, ws[0].startDate, first, ps);
      }
    }
    ws
  }

  /** Week starts strictly increase, and so do the ranges: each range ends
      before the next week starts. */
  lemma {:induction false} WeeksIncrease(ws: seq<WeekDateInfo>, ps: seq<NonAcademicPeriod>, i: int, j: int)
    requires forall k :: 0 <= k < |ws| ==> IsLectiveWeek(ws[k], ps)
    requires Consecutive(ws, ps)
    requires 0 <= i < j < |ws|
    ensures ws[i].startDate < ws[i].rangeEnd < ws[j].startDate
    decreases j - i
  {
    if i + 1 < j {
      WeeksIncrease(ws, ps, i + 1, j);
    }
  }

  /** Consecutive week starts are exactly five working days apart: a week
      spans five working days (its start and four more), and the next week
      starts on the working day after. */
  lemma FiveWorkingDaysApart(ws: seq<WeekDateInfo>, ps: seq<NonAcademicPeriod>, k: int)
    requires forall i :: 0 <= i < |ws| ==> IsLectiveWeek(ws[i], ps)
    requires Consecutive(ws, ps)
    requires 0 <= k < |ws| - 1
    ensures WorkingDaysBetween(ws[k].startDate - 1, ws[k].rangeEnd, ps) == 5
    ensures WorkingDaysBetween(ws[k].startDate, ws[k + 1].startDate, ps) == 5
  {
    var w := ws[k];
    WorkingDaysSplit(w.startDate - 1, w.startDate, w.rangeEnd, ps);
    assert WorkingDaysBetween(w.startDate - 1, w.startDate, ps) == 1 by {
      assert WorkingDaysBetween(w.startDate - 1, w.startDate - 1, ps) == 0;
    }
    WorkingDaysSplit(w.startDate, w.rangeEnd, ws[k + 1].startDate, ps);
    WorkingDaysUpToFirst(w.rangeEnd, ws[k + 1].startDate, ps);
  }

  /** `calculate_final_weeks_dates`: the Consultas and Exámenes Finales
      blocks. Nothing when there are no lective weeks. Otherwise the search
      starts the day after `start + 4` of the LAST lective week (its
      calendar Friday when it starts on a Monday) rather than after that
      week's computed range, and then steps like the lective weeks. */
  function CalculateFinalWeeksDates(start: int, lectiveWeeks: int, ps: seq<NonAcademicPeriod>): (fs: seq<WeekDateInfo>)
    requires lectiveWeeks >= 0
    ensures lectiveWeeks == 0 ==> fs == []
    ensures lectiveWeeks > 0 ==> |fs| == 2
    ensures lectiveWeeks > 0 ==>
      IsFirstWorkingDayFrom(CalculateWeekDates(start, lectiveWeeks, ps)[lectiveWeeks - 1].startDate + 5, fs[0].startDate, ps)
    ensures forall k :: 0 <= k < |fs| ==> IsLectiveWeek(fs[k], ps)
    ensures Consecutive(fs, ps)
  {
    var lective := CalculateWeekDates(start, lectiveWeeks, ps);
    if |lective| == 0 then []
    else
      var lastWeekEnd := lective[|lective| - 1].startDate + 4;
      var cursor := NextWorkingDay(lastWeekEnd + 1, ps);
      var fs := WeeksFrom(cursor, 2, ps);
      FirstWorkingDayUnique(cursor, fs[0].startDate, cursor, ps);
      fs
  }

  /** Period lists that exclude the same days (in whatever order, with
      whatever overlaps) give the same working days. */
  ghost predicate SameExclusions(ps: seq<NonAcademicPeriod>, qs: seq<NonAcademicPeriod>) {
    forall d :: IsInNonAcademicPeriod(d, ps) == IsInNonAcademicPeriod(d, qs)
  }

  /** Period lists that exclude the same days count the same working days. */
  lemma {:induction false} WorkingDaysAgree(a: int, b: int, ps: seq<NonAcademicPeriod>, qs: seq<NonAcademicPeriod>)
    requires SameExclusions(ps, qs)
    ensures WorkingDaysBetween(a, b, ps) == WorkingDaysBetween(a, b, qs)
    decreases b - a
  {
    if a < b {
      WorkingDaysAgree(a, b - 1, ps, qs);
    }
  }

  /** ... agree on which day is the first working day from any other ... */
  lemma FirstWorkingDayAgree(d: int, r: int, ps: seq<NonAcademicPeriod>, qs: seq<NonAcademicPeriod>)
    requires SameExclusions(ps, qs)
    ensures IsFirstWorkingDayFrom(d, r, ps) <==> IsFirstWorkingDayFrom(d, r, qs)
  {
    forall x
      ensures IsWorkingDay(x, ps) == IsWorkingDay(x, qs)
    {
    }
  }

  /** ... and build the same week from the same cursor. */
  lemma BuildWeekAgree(cursor: int, ps: seq<NonAcademicPeriod>, qs: seq<NonAcademicPeriod>)
    requires SameExclusions(ps, qs)
    ensures BuildWeek(cursor, ps) == BuildWeek(cursor, qs)
  {
    var w := BuildWeek(cursor, ps);
    var w' := BuildWeek(cursor, qs);
    FirstWorkingDayAgree(cursor, w'.startDate, ps, qs);
    FirstWorkingDayUnique(cursor, w.startDate, w'.startDate, ps);
    WorkingDaysAgree(w.startDate, w'.rangeEnd, ps, qs);
    WorkingDayAtCountUnique(w.startDate, w.rangeEnd, w'.rangeEnd, ps);
  }

  /** ... and move the cursor to the same next working day. */
  lemma NextWorkingDayAgree(d: int, ps: seq<NonAcademicPeriod>, qs: seq<NonAcademicPeriod>)
    requires SameExclusions(ps, qs)
    ensures NextWorkingDay(d, ps) == NextWorkingDay(d, qs)
  {
    FirstWorkingDayAgree(d, NextWorkingDay(d, qs), ps, qs);
    FirstWorkingDayUnique(d, NextWorkingDay(d, ps), NextWorkingDay(d, qs), ps);
  }

  /** Listing the same periods in another order, or repeating some, leaves
      every membership test unchanged. */
  lemma PeriodOrderIrrelevant(ps: seq<NonAcademicPeriod>, qs: seq<NonAcademicPeriod>)
    requires forall p :: p in ps <==> p in qs
    ensures SameExclusions(ps, qs)
  {
    forall d
      ensures IsInNonAcademicPeriod(d, ps) == IsInNonAcademicPeriod(d, qs)
    {
      if IsInNonAcademicPeriod(d, ps) {
        var i :| 0 <= i < |ps| && ps[i].start <= d <= ps[i].end;
        assert ps[i] in qs;
      }
      if IsInNonAcademicPeriod(d, qs) {
        var i :| 0 <= i < |qs| && qs[i].start <= d <= qs[i].end;
        assert qs[i] in ps;
      }
    }
  }
}
