/** `create_data_sheet` as a whole: the three header rows, one data row per
    fragment, and the worksheet's limits (its name, its rows and columns,
    the length of a cell's string), which turn a bad year or an oversized
    balance into an error instead of a sheet. */
module DataSheet {
  import opened Wrappers
  import opened Calendar
  import opened FragmentCodec
  import opened SheetLayout
  import opened DateLabel
  import opened Text

  /** The greatest row and column index a worksheet accepts: 1048576 rows
      and 16384 columns, counted from 0. */
  const MaxRow := 1048575
  const MaxCol := 16383

  /** `BalanceExportConfig`; the period and year-text fields are carried by
      the source but not used by the sheet. */
  datatype ExportConfig = ExportConfig(
    academicYear: string,
    startDate: int,
    weeks: int,
    fragments: seq<FragmentExportData>,
    periods: seq<NonAcademicPeriod>)

  datatype Sheet = Sheet(name: string, actions: seq<Action>)

  /** The failures the sheet itself can cause: a worksheet name Excel
      refuses, a cell outside the worksheet, and a string longer than a
      cell holds. */
  datatype ExportError = SheetNameInvalid | RowColumnLimit | StringTooLong

  /** The most characters a cell's string may have. */
  const MaxStringLen := 32767

  /** The longest worksheet name. */
  const MaxSheetNameLen := 31

  /** Characters a worksheet name may not contain. */
  predicate ForbiddenInSheetName(c: char) {
    c == '[' || c == ']' || c == ':' || c == '*' || c == '?' || c == '/' || c == '\\'
  }

  /** A name `set_name` accepts: 1 to 31 characters, none of them
      forbidden, and no apostrophe at either end. (The reserved name
      "History" cannot end in ".ICS", so it is not listed.) */
  predicate ValidSheetName(name: string) {
    && 1 <= |name| <= MaxSheetNameLen
    && (forall i :: 0 <= i < |name| ==> !ForbiddenInSheetName(name[i]))
    && name[0] != '\''
    && name[|name| - 1] != '\''
  }

  function FirstCol(a: Action): int {
    if a.Write? then a.col else a.firstCol
  }

  function LastCol(a: Action): int {
    if a.Write? then a.col else a.lastCol
  }

  /** An action the worksheet accepts. */
  predicate InRange(a: Action) {
    0 <= a.row <= MaxRow && 0 <= FirstCol(a) <= MaxCol && 0 <= LastCol(a) <= MaxCol
  }

  predicate AllInRange(s: seq<Action>) {
    forall i :: 0 <= i < |s| ==> InRange(s[i])
  }

  /** The string an action writes; a number writes none. */
  function TextOf(a: Action): string {
    match a
    case Write(_, _, content, _) => if content.Text? then content.s else ""
    case Merge(_, _, _, text, _) => text
  }

  predicate TextFits(a: Action) {
    |TextOf(a)| <= MaxStringLen
  }

  predicate AllTextsFit(s: seq<Action>) {
    forall i :: 0 <= i < |s| ==> TextFits(s[i])
  }

  /** An action the worksheet carries out. */
  predicate Accepted(a: Action) {
    InRange(a) && TextFits(a)
  }

  /** Why a write or merge is refused: its cell position is checked
      before its string. */
  function Rejection(a: Action): ExportError {
    if !InRange(a) then RowColumnLimit else StringTooLong
  }

  /** The index of the first action the worksheet refuses, or |s| when it
      accepts them all; the `?` after each write stops the export there. */
  function FirstRejected(s: seq<Action>): (i: nat)
    ensures i <= |s|
    ensures forall j :: 0 <= j < i ==> Accepted(s[j])
    ensures i < |s| ==> !Accepted(s[i])
    ensures i == |s| <==> AllInRange(s) && AllTextsFit(s)
  {
    if |s| == 0 then 0
    else if !Accepted(s[0]) then 0
    else
      var i := FirstRejected(s[1..]);
      assert forall j :: 1 <= j < |s| ==> s[j] == s[1..][j - 1];
      1 + i
  }

  lemma AllTextsFitConcat(a: seq<Action>, b: seq<Action>)
    ensures AllTextsFit(a + b) <==> AllTextsFit(a) && AllTextsFit(b)
  {
    if AllTextsFit(a) && AllTextsFit(b) {
      forall i | 0 <= i < |a + b|
        ensures TextFits((a + b)[i])
      {
        if i >= |a| {
          assert (a + b)[i] == b[i - |a|];
        }
      }
    }
    if AllTextsFit(a + b) {
      forall i | 0 <= i < |a|
        ensures TextFits(a[i])
      {
        assert (a + b)[i] == a[i];
      }
      forall i | 0 <= i < |b|
        ensures TextFits(b[i])
      {
        assert (a + b)[|a| + i] == b[i];
      }
    }
  }

  lemma AllInRangeConcat(a: seq<Action>, b: seq<Action>)
    ensures AllInRange(a + b) <==> AllInRange(a) && AllInRange(b)
  {
    if AllInRange(a) && AllInRange(b) {
      forall i | 0 <= i < |a + b|
        ensures InRange((a + b)[i])
      {
        if i >= |a| {
          assert (a + b)[i] == b[i - |a|];
        }
      }
    }
    if AllInRange(a + b) {
      forall i | 0 <= i < |a|
        ensures InRange(a[i])
      {
        assert (a + b)[i] == a[i];
      }
      forall i | 0 <= i < |b|
        ensures InRange(b[i])
      {
        assert (a + b)[|a| + i] == b[i];
      }
    }
  }

  /** The data rows read four Consultas and five Exámenes cells of every
      fragment; shorter vectors make the source panic. */
  predicate FragmentsFit(fs: seq<FragmentExportData>) {
    forall i :: 0 <= i < |fs| ==> |fs[i].consultas| >= ConsultasCols && |fs[i].examenes| >= ExamenesCols
  }

  /** Every fragment has the shape of a decoded one (which in particular
      makes it fit). */
  predicate AllShaped(fs: seq<FragmentExportData>, weeks: nat) {
    && FragmentsFit(fs)
    && forall i :: 0 <= i < |fs| ==> Shaped(fs[i], weeks)
  }

  /** A cell's code fits in a cell. */
  predicate CodeFits(o: Option<string>) {
    |o.GetOr("")| <= MaxStringLen
  }

  /** Every string a fragment's row writes fits in a cell: the subject
      name and each code. */
  predicate FragmentTextsFit(f: FragmentExportData) {
    && |f.name| <= MaxStringLen
    && (forall w, d :: 0 <= w < |f.weekly| && 0 <= d < |f.weekly[w]| ==> CodeFits(f.weekly[w][d]))
    && (forall i :: 0 <= i < |f.consultas| ==> CodeFits(f.consultas[i]))
    && (forall i :: 0 <= i < |f.examenes| ==> CodeFits(f.examenes[i]))
  }

  /** Rows written one after the other. */
  function Concat(rows: seq<seq<Action>>): seq<Action> {
    if |rows| == 0 then []
    else Concat(rows[..|rows| - 1]) + rows[|rows| - 1]
  }

  /** The data rows, one per fragment, fragment i's in row 3 + i. */
  function RowsOf(fs: seq<FragmentExportData>, weeks: nat): (rows: seq<seq<Action>>)
    requires FragmentsFit(fs)
    ensures |rows| == |fs|
    ensures forall i :: 0 <= i < |fs| ==> rows[i] == DataRow(3 + i, fs[i], weeks)
  {
    seq(|fs|, i requires 0 <= i < |fs| => DataRow(3 + i, fs[i], weeks))
  }

  /** The data rows written one after the other. */
  function DataRows(fs: seq<FragmentExportData>, weeks: nat): seq<Action>
    requires FragmentsFit(fs)
  {
    Concat(RowsOf(fs, weeks))
  }

  /** Rows 0 to 2 for the week dates the calendar computes. */
  function HeaderRows(weeks: nat, startDate: int, periods: seq<NonAcademicPeriod>): seq<Action> {
    var ws := CalculateWeekDates(startDate, weeks, periods);
    var finals := CalculateFinalWeeksDates(startDate, weeks, periods);
    DateRow(weeks, Labels(ws), Labels(finals)) + TitleRow(weeks) + DayRow(weeks)
  }

  /** Everything the sheet writes, in order: the header rows, then the
      data rows. */
  function SheetActions(config: ExportConfig): seq<Action>
    requires config.weeks >= 0 && FragmentsFit(config.fragments)
  {
    HeaderRows(config.weeks, config.startDate, config.periods) + DataRows(config.fragments, config.weeks)
  }

  /** The sheet of a balance, named after its academic year. Naming the
      worksheet fails first when Excel refuses the name; setting the
      column widths fails next when the data columns pass the last
      worksheet column; otherwise the first write or merge the worksheet
      refuses fails the whole export with its own error. */
  function CreateDataSheet(config: ExportConfig): (r: Result<Sheet, ExportError>)
    requires config.weeks >= 0 && FragmentsFit(config.fragments)
    ensures !ValidSheetName(config.academicYear + ".ICS") ==> r == Failure(SheetNameInvalid)
    ensures ValidSheetName(config.academicYear + ".ICS") && TotalCols(config.weeks) > MaxCol
      ==> r == Failure(RowColumnLimit)
    ensures r.Success? ==> r.value.name == config.academicYear + ".ICS" && ValidSheetName(r.value.name)
    ensures r.Success? ==> TotalCols(config.weeks) <= MaxCol && AllInRange(r.value.actions) && AllTextsFit(r.value.actions)
    ensures r.Success? ==> r.value.actions == SheetActions(config)
    ensures r == Failure(StringTooLong) ==>
      exists a :: a in SheetActions(config) && InRange(a) && !TextFits(a)
  {
    var name := config.academicYear + ".ICS";
    if !ValidSheetName(name) then Failure(SheetNameInvalid)
    else if TotalCols(config.weeks) > MaxCol then Failure(RowColumnLimit)
    else
      var actions := SheetActions(config);
      var i := FirstRejected(actions);
      if i == |actions| then Success(Sheet(name, actions))
      else
        assert actions[i] in actions;
        Failure(Rejection(actions[i]))
  }

  // ---------------------------------------------------------------------
  // When the export fails
  // ---------------------------------------------------------------------

  /** Every block lies within the data columns. */
  lemma BlockWithin(weeks: nat, i: nat)
    requires i < weeks + 2
    ensures 1 <= BlockStart(weeks, BlockAt(weeks, i)) <= BlockEnd(weeks, BlockAt(weeks, i)) <= TotalCols(weeks)
  {
    if i < weeks {
      assert DaysPerWeek * i + DaysPerWeek <= DaysPerWeek * weeks;
    }
  }

  lemma TitleRowInRange(weeks: nat)
    requires TotalCols(weeks) <= MaxCol
    ensures AllInRange(TitleRow(weeks))
  {
    TitleRowBlocks(weeks);
    forall i | 0 <= i < |TitleRow(weeks)|
      ensures InRange(TitleRow(weeks)[i])
    {
      BlockWithin(weeks, i);
    }
  }

  lemma DayRowInRange(weeks: nat)
    requires TotalCols(weeks) <= MaxCol
    ensures AllInRange(DayRow(weeks))
  {
    DayRowCells(weeks);
    forall i | 0 <= i < |DayRow(weeks)|
      ensures InRange(DayRow(weeks)[i])
    {
      var c := i + 1;
      var p := PositionOf(weeks, c);
      assert DayRow(weeks)[c - 1] == Write(2, c, Number(p.day + 1), DayHeaderStyle(IsLastColumn(p)));
    }
  }

  lemma DateRowInRange(weeks: nat, labels: seq<string>, finalLabels: seq<string>)
    requires |labels| == weeks && (|finalLabels| == 0 || |finalLabels| == 2)
    requires TotalCols(weeks) <= MaxCol
    ensures AllInRange(DateRow(weeks, labels, finalLabels))
  {
    DateRowBlocks(weeks, labels, finalLabels);
    DateRowWeeks(weeks, labels, finalLabels);
    var row := DateRow(weeks, labels, finalLabels);
    forall j | 1 <= j < |row|
      ensures InRange(row[j])
    {
      if j - 1 < weeks {
        BlockWithin(weeks, j - 1);
        assert BlockAt(weeks, j - 1) == WeekBlock(j - 1);
      } else {
        BlockWithin(weeks, j - 1);
      }
    }
  }

  lemma HeaderRowsInRange(weeks: nat, startDate: int, periods: seq<NonAcademicPeriod>)
    requires TotalCols(weeks) <= MaxCol
    ensures AllInRange(HeaderRows(weeks, startDate, periods))
  {
    var ws := CalculateWeekDates(startDate, weeks, periods);
    var finals := CalculateFinalWeeksDates(startDate, weeks, periods);
    var date := DateRow(weeks, Labels(ws), Labels(finals));
    DateRowInRange(weeks, Labels(ws), Labels(finals));
    TitleRowInRange(weeks);
    DayRowInRange(weeks);
    AllInRangeConcat(date, TitleRow(weeks));
    AllInRangeConcat(date + TitleRow(weeks), DayRow(weeks));
  }

  /** A data row of a well-shaped fragment fits exactly when its row
      does. */
  lemma DataRowInRange(row: nat, f: FragmentExportData, weeks: nat)
    requires Shaped(f, weeks) && TotalCols(weeks) <= MaxCol
    ensures AllInRange(DataRow(row, f, weeks)) <==> row <= MaxRow
  {
    var r := DataRow(row, f, weeks);
    DataRowCells(row, f, weeks);
    if row <= MaxRow {
      forall c | 0 <= c < |r|
        ensures InRange(r[c])
      {
        assert r[c].col == c;
      }
    } else {
      assert !InRange(r[0]);
    }
  }

  /** Concatenated rows lie in the worksheet exactly when each row does. */
  lemma {:induction false} ConcatInRange(rows: seq<seq<Action>>)
    ensures AllInRange(Concat(rows)) <==> forall j :: 0 <= j < |rows| ==> AllInRange(rows[j])
  {
    if |rows| > 0 {
      var init := rows[..|rows| - 1];
      ConcatInRange(init);
      AllInRangeConcat(Concat(init), rows[|rows| - 1]);
      assert forall j :: 0 <= j < |init| ==> init[j] == rows[j];
    }
  }

  lemma DataRowsInRange(fs: seq<FragmentExportData>, weeks: nat)
    requires AllShaped(fs, weeks) && TotalCols(weeks) <= MaxCol
    ensures AllInRange(DataRows(fs, weeks)) <==> |fs| <= MaxRow - 2
  {
    if |fs| <= MaxRow - 2 {
      DataRowsFit(fs, weeks);
    } else {
      LastDataRowOutside(fs, weeks);
    }
  }

  lemma DataRowsFit(fs: seq<FragmentExportData>, weeks: nat)
    requires AllShaped(fs, weeks) && TotalCols(weeks) <= MaxCol
    requires |fs| <= MaxRow - 2
    ensures AllInRange(DataRows(fs, weeks))
  {
    var rows := RowsOf(fs, weeks);
    forall j | 0 <= j < |rows|
      ensures AllInRange(rows[j])
    {
      DataRowInRange(3 + j, fs[j], weeks);
    }
    ConcatInRange(rows);
  }

  lemma LastDataRowOutside(fs: seq<FragmentExportData>, weeks: nat)
    requires AllShaped(fs, weeks) && TotalCols(weeks) <= MaxCol
    requires |fs| > MaxRow - 2
    ensures !AllInRange(DataRows(fs, weeks))
  {
    var rows := RowsOf(fs, weeks);
    var last := |fs| - 1;
    DataRowInRange(3 + last, fs[last], weeks);
    assert !AllInRange(rows[last]);
    ConcatInRange(rows);
  }

  /** The header strings are short: "Asignaturas", the date labels, the
      block titles; the day numbers are numbers. */
  lemma DateRowTextsFit(weeks: nat, labels: seq<string>, finalLabels: seq<string>)
    requires |labels| == weeks && (|finalLabels| == 0 || |finalLabels| == 2)
    requires forall k :: 0 <= k < |labels| ==> |labels[k]| <= MaxStringLen
    requires forall k :: 0 <= k < |finalLabels| ==> |finalLabels[k]| <= MaxStringLen
    ensures AllTextsFit(DateRow(weeks, labels, finalLabels))
  {
    var row := DateRow(weeks, labels, finalLabels);
    DateRowWeeks(weeks, labels, finalLabels);
    if |finalLabels| == 2 {
      DateRowFinals(weeks, labels, finalLabels);
    }
    forall j | 0 <= j < |row|
      ensures TextFits(row[j])
    {
      if 1 <= j <= weeks {
        assert TextOf(row[j]) == labels[j - 1];
      }
    }
  }

  lemma LabelsFit(ws: seq<WeekDateInfo>)
    ensures forall k :: 0 <= k < |Labels(ws)| ==> |Labels(ws)[k]| <= MaxStringLen
  {
    forall k | 0 <= k < |Labels(ws)|
      ensures |Labels(ws)[k]| <= MaxStringLen
    {
      RangeLabelLength(ws[k].startDate);
    }
  }

  lemma TitleRowTextsFit(weeks: nat)
    requires TotalCols(weeks) <= MaxCol
    ensures AllTextsFit(TitleRow(weeks))
  {
    TitleRowBlocks(weeks);
    forall i | 0 <= i < |TitleRow(weeks)|
      ensures TextFits(TitleRow(weeks)[i])
    {
      if i < weeks {
        NatToStringLength(i + 1);
        assert TextOf(TitleRow(weeks)[i]) == "Semana " + NatToString(i + 1);
      }
    }
  }

  lemma DayRowTextsFit(weeks: nat)
    ensures AllTextsFit(DayRow(weeks))
  {
    DayRowCells(weeks);
    forall i | 0 <= i < |DayRow(weeks)|
      ensures TextFits(DayRow(weeks)[i])
    {
      var c := i + 1;
      var p := PositionOf(weeks, c);
      assert DayRow(weeks)[c - 1] == Write(2, c, Number(p.day + 1), DayHeaderStyle(IsLastColumn(p)));
    }
  }

  lemma HeaderRowsTextsFit(weeks: nat, startDate: int, periods: seq<NonAcademicPeriod>)
    requires TotalCols(weeks) <= MaxCol
    ensures AllTextsFit(HeaderRows(weeks, startDate, periods))
  {
    var ws := CalculateWeekDates(startDate, weeks, periods);
    var finals := CalculateFinalWeeksDates(startDate, weeks, periods);
    var date := DateRow(weeks, Labels(ws), Labels(finals));
    LabelsFit(ws);
    LabelsFit(finals);
    DateRowTextsFit(weeks, Labels(ws), Labels(finals));
    TitleRowTextsFit(weeks);
    DayRowTextsFit(weeks);
    AllTextsFitConcat(date, TitleRow(weeks));
    AllTextsFitConcat(date + TitleRow(weeks), DayRow(weeks));
  }

  /** A data row writes only strings that fit exactly when the fragment's
      name and every code do. */
  lemma DataRowTextsFit(row: int, f: FragmentExportData, weeks: nat)
    requires Shaped(f, weeks)
    ensures AllTextsFit(DataRow(row, f, weeks)) <==> FragmentTextsFit(f)
  {
    var r := DataRow(row, f, weeks);
    DataRowCells(row, f, weeks);
    if FragmentTextsFit(f) {
      forall c | 1 <= c < |r|
        ensures TextFits(r[c])
      {
        var p := PositionOf(weeks, c);
        assert TextOf(r[c]) == SlotAt(f, weeks, p).GetOr("");
      }
      assert TextFits(r[0]);
    }
    if AllTextsFit(r) {
      assert TextFits(r[0]);
      forall w, d | 0 <= w < |f.weekly| && 0 <= d < |f.weekly[w]|
        ensures CodeFits(f.weekly[w][d])
      {
        var p := Position(WeekBlock(w), d);
        DataRowWeekCell(row, f, weeks, p);
        assert TextFits(r[ColumnOf(weeks, p)]);
      }
      forall i | 0 <= i < |f.consultas|
        ensures CodeFits(f.consultas[i])
      {
        var p := Position(ConsultasBlock, i);
        DataRowTrailingCell(row, f, weeks, p);
        assert TextFits(r[ColumnOf(weeks, p)]);
      }
      forall i | 0 <= i < |f.examenes|
        ensures CodeFits(f.examenes[i])
      {
        var p := Position(ExamenesBlock, i);
        DataRowTrailingCell(row, f, weeks, p);
        assert TextFits(r[ColumnOf(weeks, p)]);
      }
    }
  }

  lemma {:induction false} ConcatTextsFit(rows: seq<seq<Action>>)
    ensures AllTextsFit(Concat(rows)) <==> forall j :: 0 <= j < |rows| ==> AllTextsFit(rows[j])
  {
    if |rows| > 0 {
      var init := rows[..|rows| - 1];
      ConcatTextsFit(init);
      AllTextsFitConcat(Concat(init), rows[|rows| - 1]);
      assert forall j :: 0 <= j < |init| ==> init[j] == rows[j];
    }
  }

  lemma DataRowsTextsFit(fs: seq<FragmentExportData>, weeks: nat)
    requires AllShaped(fs, weeks)
    ensures AllTextsFit(DataRows(fs, weeks)) <==> forall i :: 0 <= i < |fs| ==> FragmentTextsFit(fs[i])
  {
    if forall i :: 0 <= i < |fs| ==> FragmentTextsFit(fs[i]) {
      DataRowsTextsAllFit(fs, weeks);
    } else {
      var i :| 0 <= i < |fs| && !FragmentTextsFit(fs[i]);
      DataRowTextTooLong(fs, weeks, i);
    }
  }

  lemma DataRowsTextsAllFit(fs: seq<FragmentExportData>, weeks: nat)
    requires AllShaped(fs, weeks)
    requires forall i :: 0 <= i < |fs| ==> FragmentTextsFit(fs[i])
    ensures AllTextsFit(DataRows(fs, weeks))
  {
    var rows := RowsOf(fs, weeks);
    forall j | 0 <= j < |rows|
      ensures AllTextsFit(rows[j])
    {
      DataRowTextsFit(3 + j, fs[j], weeks);
    }
    ConcatTextsFit(rows);
  }

  lemma DataRowTextTooLong(fs: seq<FragmentExportData>, weeks: nat, i: nat)
    requires AllShaped(fs, weeks)
    requires i < |fs| && !FragmentTextsFit(fs[i])
    ensures !AllTextsFit(DataRows(fs, weeks))
  {
    var rows := RowsOf(fs, weeks);
    DataRowTextsFit(3 + i, fs[i], weeks);
    assert !AllTextsFit(rows[i]);
    ConcatTextsFit(rows);
  }

  /** Once the name is accepted and the columns fit, every action lies in
      the worksheet exactly when the fragments' rows do, and every string
      fits exactly when each fragment's name and codes do. */
  lemma SheetActionsAccepted(config: ExportConfig)
    requires config.weeks >= 0 && AllShaped(config.fragments, config.weeks)
    requires TotalCols(config.weeks) <= MaxCol
    ensures AllInRange(SheetActions(config)) <==> |config.fragments| <= MaxRow - 2
    ensures AllTextsFit(SheetActions(config))
      <==> forall i :: 0 <= i < |config.fragments| ==> FragmentTextsFit(config.fragments[i])
  {
    var header := HeaderRows(config.weeks, config.startDate, config.periods);
    var rows := DataRows(config.fragments, config.weeks);
    HeaderRowsInRange(config.weeks, config.startDate, config.periods);
    DataRowsInRange(config.fragments, config.weeks);
    AllInRangeConcat(header, rows);
    HeaderRowsTextsFit(config.weeks, config.startDate, config.periods);
    DataRowsTextsFit(config.fragments, config.weeks);
    AllTextsFitConcat(header, rows);
  }

  /** For fragments decoded for the sheet's week count, the export
      succeeds exactly when Excel accepts the name "<year>.ICS", the week
      blocks and the two final blocks fit in the worksheet's columns, the
      fragments' rows (from row 3 on) fit in its rows, and every subject
      name and code fits in a cell. */
  lemma CreateDataSheetSucceeds(config: ExportConfig)
    requires config.weeks >= 0 && AllShaped(config.fragments, config.weeks)
    ensures FragmentsFit(config.fragments)
    ensures CreateDataSheet(config).Success?
      <==> && ValidSheetName(config.academicYear + ".ICS")
           && TotalCols(config.weeks) <= MaxCol
           && |config.fragments| <= MaxRow - 2
           && forall i :: 0 <= i < |config.fragments| ==> FragmentTextsFit(config.fragments[i])
  {
    if TotalCols(config.weeks) <= MaxCol {
      SheetActionsAccepted(config);
    }
  }

  /** Which error a failing export reports, once the name is accepted and
      the columns fit: too many fragments alone gives the row and column
      error, and a name or code too long alone gives the string error. */
  lemma CreateDataSheetFailure(config: ExportConfig)
    requires config.weeks >= 0 && AllShaped(config.fragments, config.weeks)
    requires ValidSheetName(config.academicYear + ".ICS") && TotalCols(config.weeks) <= MaxCol
    ensures |config.fragments| > MaxRow - 2
      && (forall i :: 0 <= i < |config.fragments| ==> FragmentTextsFit(config.fragments[i]))
      ==> CreateDataSheet(config) == Failure(RowColumnLimit)
    ensures |config.fragments| <= MaxRow - 2
      && (exists i :: 0 <= i < |config.fragments| && !FragmentTextsFit(config.fragments[i]))
      ==> CreateDataSheet(config) == Failure(StringTooLong)
  {
    SheetActionsAccepted(config);
    var actions := SheetActions(config);
    var i := FirstRejected(actions);
    if i < |actions| {
      assert CreateDataSheet(config) == Failure(Rejection(actions[i]));
      if AllTextsFit(actions) {
        assert TextFits(actions[i]);
      } else if AllInRange(actions) {
        assert InRange(actions[i]);
      }
    }
  }

  // ---------------------------------------------------------------------
  // What the sheet shows
  // ---------------------------------------------------------------------

  /** Rows of one width w concatenate to |rows| * w actions. */
  lemma {:induction false} ConcatLength(rows: seq<seq<Action>>, w: nat)
    requires forall j :: 0 <= j < |rows| ==> |rows[j]| == w
    ensures |Concat(rows)| == |rows| * w
  {
    if |rows| > 0 {
      ConcatLength(rows[..|rows| - 1], w);
    }
  }

  /** ... and cell c of row i is action i * w + c. */
  lemma {:induction false} ConcatIndex(rows: seq<seq<Action>>, w: nat, i: nat, c: nat)
    requires forall j :: 0 <= j < |rows| ==> |rows[j]| == w
    requires i < |rows| && c < w
    ensures i * w + c < |Concat(rows)| && Concat(rows)[i * w + c] == rows[i][c]
  {
    var n := |rows|;
    var init := rows[..n - 1];
    ConcatLength(init, w);
    assert Concat(rows) == Concat(init) + rows[n - 1];
    if i < n - 1 {
      ConcatIndex(init, w, i, c);
      RowOffsetBelow(i, n - 1, w, c);
    }
  }

  /** Cell c of row i lies before row m when i < m. */
  lemma RowOffsetBelow(i: nat, m: nat, w: nat, c: nat)
    requires i < m && c < w
    ensures i * w + c < m * w
  {
    assert (i + 1) * w <= m * w;
  }

  /** The data rows follow each other in fragment order, one action per
      column, so cell c of fragment i's row (row 3 + i) is action
      i * (TotalCols + 1) + c. */
  lemma DataRowsCell(fs: seq<FragmentExportData>, weeks: nat, i: nat, c: nat)
    requires AllShaped(fs, weeks) && i < |fs| && c <= TotalCols(weeks)
    ensures |DataRows(fs, weeks)| == |fs| * (TotalCols(weeks) + 1)
    ensures var k := i * (TotalCols(weeks) + 1) + c;
      var d := DataRow(3 + i, fs[i], weeks);
      k < |DataRows(fs, weeks)| && c < |d| && DataRows(fs, weeks)[k] == d[c]
  {
    var w := TotalCols(weeks) + 1;
    var rows := RowsOf(fs, weeks);
    forall j | 0 <= j < |fs|
      ensures |rows[j]| == w
    {
      DataRowLength(3 + j, fs[j], weeks);
    }
    ConcatLength(rows, w);
    ConcatIndex(rows, w, i, c);
  }

  /** The header rows of the sheet show, over week k's columns, the label
      of the k-th lective week. */
  lemma HeaderWeekLabel(weeks: nat, startDate: int, periods: seq<NonAcademicPeriod>, k: nat)
    requires k < weeks
    ensures var ws := CalculateWeekDates(startDate, weeks, periods);
      var h := HeaderRows(weeks, startDate, periods);
      |ws| == weeks && 1 + k < |h|
      && h[1 + k] == Merge(0, BlockStart(weeks, WeekBlock(k)), BlockEnd(weeks, WeekBlock(k)), Labels(ws)[k], HeaderWeek)
  {
    var ws := CalculateWeekDates(startDate, weeks, periods);
    var finals := CalculateFinalWeeksDates(startDate, weeks, periods);
    var date := DateRow(weeks, Labels(ws), Labels(finals));
    DateRowWeeks(weeks, Labels(ws), Labels(finals));
    assert (date + TitleRow(weeks) + DayRow(weeks))[1 + k] == date[1 + k];
  }

  /** The label over week k's columns reads back as the day and month of
      that lective week's first working day and of four days later. */
  lemma WeekLabelShowsWeekStart(weeks: nat, startDate: int, periods: seq<NonAcademicPeriod>, k: nat)
    requires k < weeks
    ensures var ws := CalculateWeekDates(startDate, weeks, periods);
      var h := HeaderRows(weeks, startDate, periods);
      |ws| == weeks && 1 + k < |h| && h[1 + k].Merge?
      && DateLabel.Parse(h[1 + k].text) == Some(FieldsOf(ws[k].startDate))
  {
    var ws := CalculateWeekDates(startDate, weeks, periods);
    HeaderWeekLabel(weeks, startDate, periods, k);
    RangeLabelRecoversDates(ws[k].startDate);
  }

  /** Where fragment i's row starts among the data rows' actions: each row
      has one action per column, the subject column included. */
  function RowStart(weeks: nat, i: nat): (k: nat)
    ensures k == i * (TotalCols(weeks) + 1)
  {
    ProductNonneg(i, TotalCols(weeks) + 1);
    i * (TotalCols(weeks) + 1)
  }

  /** Cell c of fragment i's row, after any header. */
  lemma AfterHeaderCell(header: seq<Action>, all: seq<Action>, fs: seq<FragmentExportData>, weeks: nat, i: nat, c: nat)
    requires AllShaped(fs, weeks) && i < |fs| && c <= TotalCols(weeks)
    requires all == header + DataRows(fs, weeks)
    ensures var k := |header| + RowStart(weeks, i) + c;
      var d := DataRow(3 + i, fs[i], weeks);
      k < |all| && c < |d| && all[k] == d[c]
  {
    var rows := DataRows(fs, weeks);
    DataRowsCell(fs, weeks, i, c);
    SuffixIndex(header, rows, RowStart(weeks, i) + c);
  }

  lemma ProductNonneg(i: nat, w: nat)
    ensures 0 <= i * w
  {
  }

  lemma SuffixIndex(a: seq<Action>, b: seq<Action>, j: nat)
    requires j < |b|
    ensures |a| + j < |a + b| && (a + b)[|a| + j] == b[j]
  {
  }

  /** In an exported sheet, fragment i's row (row 3 + i) follows the
      header rows in fragment order: cell c of it is the sheet's action
      |header| + RowStart(weeks, i) + c. */
  lemma SheetShowsFragmentCell(config: ExportConfig, i: nat, c: nat)
    requires config.weeks >= 0 && AllShaped(config.fragments, config.weeks)
    requires CreateDataSheet(config).Success?
    requires i < |config.fragments| && c <= TotalCols(config.weeks)
    ensures var sheet := CreateDataSheet(config).value.actions;
      var k := |HeaderRows(config.weeks, config.startDate, config.periods)| + RowStart(config.weeks, i) + c;
      var d := DataRow(3 + i, config.fragments[i], config.weeks);
      k < |sheet| && c < |d| && sheet[k] == d[c]
  {
    var header := HeaderRows(config.weeks, config.startDate, config.periods);
    AfterHeaderCell(header, CreateDataSheet(config).value.actions, config.fragments, config.weeks, i, c);
  }

  /** In an exported sheet, the label over week k's columns reads back as
      the day and month of the k-th lective week's first working day and
      of four days later. */
  lemma SheetShowsWeekStart(config: ExportConfig, k: nat)
    requires config.weeks >= 0 && FragmentsFit(config.fragments)
    requires CreateDataSheet(config).Success? && k < config.weeks
    ensures var ws := CalculateWeekDates(config.startDate, config.weeks, config.periods);
      var sheet := CreateDataSheet(config).value.actions;
      |ws| == config.weeks && 1 + k < |sheet| && sheet[1 + k].Merge?
      && DateLabel.Parse(sheet[1 + k].text) == Some(FieldsOf(ws[k].startDate))
  {
    var header := HeaderRows(config.weeks, config.startDate, config.periods);
    var rows := DataRows(config.fragments, config.weeks);
    WeekLabelShowsWeekStart(config.weeks, config.startDate, config.periods, k);
    assert (header + rows)[1 + k] == header[1 + k];
  }
}
