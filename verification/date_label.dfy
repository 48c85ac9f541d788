/** The date range written above each block of the export's header row.

    A block starting on day `a` is labelled with `a` and `a + 4` calendar
    days: "1-5 Sep" when both fall in the same month, "29 Sep-3 Oct"
    otherwise. Day numbers are written without padding. */
module DateLabel {
  import opened Wrappers
  import opened Text
  import opened Civil

  /** The Spanish month abbreviations, January first. */
  function MonthNames(): seq<string> {
    ["Ene", "Feb", "Mar", "Abr", "May", "Jun", "Jul", "Ago", "Sep", "Oct", "Nov", "Dic"]
  }

  function MonthName(m: int): string
    requires 1 <= m <= 12
  {
    MonthNames()[m - 1]
  }

  /** The month an abbreviation stands for. */
  function MonthOfName(name: string): (m: Option<int>)
    ensures m.Some? ==> 1 <= m.value <= 12 && MonthName(m.value) == name
    ensures m.None? ==> name !in MonthNames()
  {
    if name == "Ene" then Some(1)
    else if name == "Feb" then Some(2)
    else if name == "Mar" then Some(3)
    else if name == "Abr" then Some(4)
    else if name == "May" then Some(5)
    else if name == "Jun" then Some(6)
    else if name == "Jul" then Some(7)
    else if name == "Ago" then Some(8)
    else if name == "Sep" then Some(9)
    else if name == "Oct" then Some(10)
    else if name == "Nov" then Some(11)
    else if name == "Dic" then Some(12)
    else None
  }

  /** The four numbers a label shows. */
  datatype LabelFields = LabelFields(startDay: nat, startMonth: int, endDay: nat, endMonth: int)

  predicate ValidFields(f: LabelFields) {
    1 <= f.startMonth <= 12 && 1 <= f.endMonth <= 12
  }

  /** The label text for its fields: one month name when the months agree,
      one after each day otherwise. */
  function Render(f: LabelFields): string
    requires ValidFields(f)
  {
    if f.startMonth == f.endMonth then
      NatToString(f.startDay) + "-" + NatToString(f.endDay) + " " + MonthName(f.startMonth)
    else
      NatToString(f.startDay) + " " + MonthName(f.startMonth) + "-"
      + NatToString(f.endDay) + " " + MonthName(f.endMonth)
  }

  /** The fields of the label for a block starting on day `a`. */
  function FieldsOf(a: int): (f: LabelFields)
    ensures ValidFields(f)
  {
    LabelFields(DayOfMonth(a), MonthOf(a), DayOfMonth(a + 4), MonthOf(a + 4))
  }

  /** The header label of a block starting on day `a` (excel_export's
      `date_range`). */
  function RangeLabel(a: int): string {
    Render(FieldsOf(a))
  }

  /** A label is short: two day numbers of at most two digits and at most
      two month names. */
  lemma RangeLabelLength(a: int)
    ensures |RangeLabel(a)| <= 13
  {
    var f := FieldsOf(a);
    var d1, d2 := NatToString(f.startDay), NatToString(f.endDay);
    NatToStringTwoDigits(f.startDay);
    NatToStringTwoDigits(f.endDay);
    assert |MonthName(f.startMonth)| == 3 && |MonthName(f.endMonth)| == 3;
    if f.startMonth == f.endMonth {
      assert RangeLabel(a) == d1 + "-" + d2 + " " + MonthName(f.startMonth);
    } else {
      assert RangeLabel(a) == d1 + " " + MonthName(f.startMonth) + "-" + d2 + " " + MonthName(f.endMonth);
    }
  }

  /** Reading a label back: two space-separated pieces "d1-d2" and a month,
      or three pieces d1, "Mon1-d2" and Mon2. */
  function Parse(s: string): Option<LabelFields> {
    var parts := Split(s, ' ');
    if |parts| == 2 then
      var days := Split(parts[0], '-');
      if |days| == 2 && ParseNat(days[0]).Some? && ParseNat(days[1]).Some?
         && MonthOfName(parts[1]).Some?
      then Some(LabelFields(ParseNat(days[0]).value, MonthOfName(parts[1]).value,
                            ParseNat(days[1]).value, MonthOfName(parts[1]).value))
      else None
    else if |parts| == 3 then
      var middle := Split(parts[1], '-');
      if |middle| == 2 && ParseNat(parts[0]).Some? && MonthOfName(middle[0]).Some?
         && ParseNat(middle[1]).Some? && MonthOfName(parts[2]).Some?
      then Some(LabelFields(ParseNat(parts[0]).value, MonthOfName(middle[0]).value,
                            ParseNat(middle[1]).value, MonthOfName(parts[2]).value))
      else None
    else None
  }

  lemma NoSeparatorInNumber(n: nat)
    ensures ' ' !in NatToString(n) && '-' !in NatToString(n)
  {
  }

  /** Every abbreviation reads back as its month, and none holds a
      separator. */
  lemma MonthNameRoundTrip(m: int)
    requires 1 <= m <= 12
    ensures MonthOfName(MonthName(m)) == Some(m)
    ensures ' ' !in MonthName(m) && '-' !in MonthName(m)
  {
  }

  lemma ParseSameMonth(f: LabelFields)
    requires ValidFields(f) && f.startMonth == f.endMonth
    ensures Parse(Render(f)) == Some(f)
  {
    var d1, d2 := NatToString(f.startDay), NatToString(f.endDay);
    var m := MonthName(f.startMonth);
    NoSeparatorInNumber(f.startDay);
    NoSeparatorInNumber(f.endDay);
    MonthNameRoundTrip(f.startMonth);
    ParseNatToString(f.startDay);
    ParseNatToString(f.endDay);
    var days := d1 + ['-'] + d2;
    assert ' ' !in days;
    assert Render(f) == days + [' '] + m;
    SplitTwo(days, m, ' ');
    SplitTwo(d1, d2, '-');
  }

  /** A string made of three separator-free pieces splits into them. */
  lemma SplitThree(a: string, b: string, c: string, sep: char)
    requires sep !in a && sep !in b && sep !in c
    ensures Split(a + [sep] + (b + [sep] + c), sep) == [a, b, c]
  {
    SplitFirst(a, sep, b + [sep] + c);
    SplitFirst(b, sep, c);
    SplitNoSeparator(c, sep);
  }

  /** ... and one made of two splits into those two. */
  lemma SplitTwo(a: string, b: string, sep: char)
    requires sep !in a && sep !in b
    ensures Split(a + [sep] + b, sep) == [a, b]
  {
    SplitFirst(a, sep, b);
    SplitNoSeparator(b, sep);
  }

  lemma ParseTwoMonths(f: LabelFields)
    requires ValidFields(f) && f.startMonth != f.endMonth
    ensures Parse(Render(f)) == Some(f)
  {
    var d1, d2 := NatToString(f.startDay), NatToString(f.endDay);
    var m1, m2 := MonthName(f.startMonth), MonthName(f.endMonth);
    NoSeparatorInNumber(f.startDay);
    NoSeparatorInNumber(f.endDay);
    MonthNameRoundTrip(f.startMonth);
    MonthNameRoundTrip(f.endMonth);
    ParseNatToString(f.startDay);
    ParseNatToString(f.endDay);
    var middle := m1 + ['-'] + d2;
    assert ' ' !in middle;
    assert Render(f) == d1 + [' '] + (middle + [' '] + m2);
    SplitThree(d1, middle, m2, ' ');
    SplitTwo(m1, d2, '-');
  }

  /** Every label reads back as the fields it was rendered from. */
  lemma ParseRender(f: LabelFields)
    requires ValidFields(f)
    ensures Parse(Render(f)) == Some(f)
  {
    if f.startMonth == f.endMonth {
      ParseSameMonth(f);
    } else {
      ParseTwoMonths(f);
    }
  }

  /** The label of a block determines the day and month of its start and of
      the day four days later. */
  lemma RangeLabelRecoversDates(a: int)
    ensures Parse(RangeLabel(a)) == Some(FieldsOf(a))
  {
    ParseRender(FieldsOf(a));
  }

  /** Blocks whose labels coincide start on the same day of the same month
      and end on the same day of the same month. */
  lemma RangeLabelInjective(a: int, b: int)
    requires RangeLabel(a) == RangeLabel(b)
    ensures FieldsOf(a) == FieldsOf(b)
  {
    RangeLabelRecoversDates(a);
    RangeLabelRecoversDates(b);
  }

  /** Two labels of the examples: a week within September and one that
      crosses into October. */
  lemma LabelExamples()
    ensures RangeLabel(20332) == "1-5 Sep"
    ensures RangeLabel(20360) == "29 Sep-3 Oct"
  {
    September2025();
    MonthBoundaryWeek();
    assert NatToString(29) == "29";
  }
}
