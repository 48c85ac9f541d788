/** The balance sheet of the export, as the list of cell writes and merged
    ranges `create_data_sheet` issues, in issue order.

    Column 0 holds subject names. After it come the blocks: one of four
    columns per lective week, then Consultas (four columns), then Exámenes
    Finales (five). Row 0 holds date labels, row 1 block titles, row 2 day
    numbers, and each fragment gets one data row from row 3 on. */
module SheetLayout {
  import opened Wrappers
  import opened Text
  import opened Calendar
  import opened DateLabel
  import opened Activity
  import opened FragmentCodec

  // ---------------------------------------------------------------------
  // Styles
  // ---------------------------------------------------------------------

  /** The nine formats of `ExcelStyles`. */
  datatype Style =
    | HeaderBold
    | HeaderWeek
    | HeaderDay
    | HeaderDayWeekEnd
    | CellActivity
    | CellActivityWeekEnd
    | CellActivityCritical
    | CellActivityCriticalWeekEnd
    | CellSubjectName

  datatype Border = Thin | Medium

  /** The right border each format draws. */
  function RightBorder(s: Style): Border {
    match s
    case HeaderBold => Medium
    case HeaderWeek => Medium
    case HeaderDay => Thin
    case HeaderDayWeekEnd => Medium
    case CellActivity => Thin
    case CellActivityWeekEnd => Medium
    case CellActivityCritical => Thin
    case CellActivityCriticalWeekEnd => Medium
    case CellSubjectName => Thin
  }

  const HeaderGrey := 0xD9D9D9
  const CriticalRed := 0xFF6B6B

  /** The background colour each format fills with, if any. */
  function Fill(s: Style): Option<int> {
    match s
    case HeaderBold => Some(HeaderGrey)
    case HeaderWeek => Some(HeaderGrey)
    case CellActivityCritical => Some(CriticalRed)
    case CellActivityCriticalWeekEnd => Some(CriticalRed)
    case _ => None
  }

  /** The format of a data cell: a thick right border in the last column of
      a block, a red background for a critical code. */
  function CellStyle(isLast: bool, act: Option<string>): Style {
    var critical := act.Some? && IsCritical(act.value);
    if isLast && critical then CellActivityCriticalWeekEnd
    else if isLast then CellActivityWeekEnd
    else if critical then CellActivityCritical
    else CellActivity
  }

  /** The format of a day-number header cell. */
  function DayHeaderStyle(isLast: bool): Style {
    if isLast then HeaderDayWeekEnd else HeaderDay
  }

  /** The two flags of a data cell act independently: the right border is
      thick exactly in the last column of a block, and the cell is red
      exactly when it holds a critical code, so an empty cell is never
      red. */
  lemma CellStyleMeaning(isLast: bool, act: Option<string>)
    ensures RightBorder(CellStyle(isLast, act)) == (if isLast then Medium else Thin)
    ensures Fill(CellStyle(isLast, act)) == Some(CriticalRed) <==> act.Some? && IsCritical(act.value)
    ensures Fill(CellStyle(isLast, act)) != Some(CriticalRed) ==> Fill(CellStyle(isLast, act)) == None
  {
  }

  /** Day-number headers likewise separate blocks with a thick border. */
  lemma DayHeaderStyleMeaning(isLast: bool)
    ensures RightBorder(DayHeaderStyle(isLast)) == (if isLast then Medium else Thin)
    ensures Fill(DayHeaderStyle(isLast)) == None
  {
  }

  // ---------------------------------------------------------------------
  // Columns
  // ---------------------------------------------------------------------

  /** The column blocks after the subject column. */
  datatype Block = WeekBlock(k: nat) | ConsultasBlock | ExamenesBlock

  /** A data column named by its block and its place in the block. */
  datatype Position = Position(block: Block, day: nat)

  function BlockWidth(b: Block): nat {
    match b
    case WeekBlock(_) => DaysPerWeek
    case ConsultasBlock => ConsultasCols
    case ExamenesBlock => ExamenesCols
  }

  /** The first column of a block, for a sheet with `weeks` lective weeks. */
  function BlockStart(weeks: nat, b: Block): int {
    match b
    case WeekBlock(k) => 1 + DaysPerWeek * k
    case ConsultasBlock => 1 + DaysPerWeek * weeks
    case ExamenesBlock => 1 + DaysPerWeek * weeks + ConsultasCols
  }

  function BlockEnd(weeks: nat, b: Block): int {
    BlockStart(weeks, b) + BlockWidth(b) - 1
  }

  /** Columns 1..TotalCols hold data. */
  function TotalCols(weeks: nat): nat {
    DaysPerWeek * weeks + ConsultasCols + ExamenesCols
  }

  predicate ValidPosition(weeks: nat, p: Position) {
    (p.block.WeekBlock? ==> p.block.k < weeks) && p.day < BlockWidth(p.block)
  }

  function ColumnOf(weeks: nat, p: Position): int {
    BlockStart(weeks, p.block) + p.day
  }

  predicate IsLastColumn(p: Position) {
    p.day == BlockWidth(p.block) - 1
  }

  /** The block and place of a data column. */
  function PositionOf(weeks: nat, c: int): (p: Position)
    requires 1 <= c <= TotalCols(weeks)
    ensures ValidPosition(weeks, p)
    ensures ColumnOf(weeks, p) == c
  {
    if c <= DaysPerWeek * weeks then
      Position(WeekBlock((c - 1) / DaysPerWeek), (c - 1) % DaysPerWeek)
    else if c <= DaysPerWeek * weeks + ConsultasCols then
      Position(ConsultasBlock, c - 1 - DaysPerWeek * weeks)
    else
      Position(ExamenesBlock, c - 1 - DaysPerWeek * weeks - ConsultasCols)
  }

  /** Every valid position has its own column in 1..TotalCols, and
      `PositionOf` names it back: the blocks tile the data columns. */
  lemma ColumnOfPosition(weeks: nat, p: Position)
    requires ValidPosition(weeks, p)
    ensures 1 <= ColumnOf(weeks, p) <= TotalCols(weeks)
    ensures PositionOf(weeks, ColumnOf(weeks, p)) == p
  {
    if p.block.WeekBlock? {
      var c := ColumnOf(weeks, p);
      assert c - 1 == DaysPerWeek * p.block.k + p.day;
      assert DaysPerWeek * p.block.k <= DaysPerWeek * (weeks - 1);
    }
  }

  // ---------------------------------------------------------------------
  // Actions
  // ---------------------------------------------------------------------

  datatype Content = Text(s: string) | Number(n: int)

  /** `write_with_format` and `merge_range`, in sheet coordinates. */
  datatype Action =
    | Write(row: int, col: int, content: Content, style: Style)
    | Merge(row: int, firstCol: int, lastCol: int, text: string, style: Style)

  /** The fragment data the sheet shows. Hours and planned amounts are
      carried by the source's record but not written by the sheet. */
  datatype FragmentExportData = FragmentExportData(
    name: string,
    weekly: seq<seq<Option<string>>>,
    consultas: seq<Option<string>>,
    examenes: seq<Option<string>>)

  /** A data cell: the code, or an empty string, in its style. */
  function CellWrite(row: int, col: int, act: Option<string>, isLast: bool): Action {
    Write(row, col, Text(act.GetOr("")), CellStyle(isLast, act))
  }

  /** The cells of week `w`, in day order. */
  function DayWrites(row: int, w: nat, days: seq<Option<string>>): (r: seq<Action>)
    ensures |r| == |days|
    ensures forall d :: 0 <= d < |days| ==>
      r[d] == CellWrite(row, 1 + DaysPerWeek * w + d, days[d], d == DaysPerWeek - 1)
  {
    if |days| == 0 then []
    else
      var d := |days| - 1;
      DayWrites(row, w, days[..d]) + [CellWrite(row, 1 + DaysPerWeek * w + d, days[d], d == DaysPerWeek - 1)]
  }

  /** The cells of the lective weeks, week after week. */
  function WeeklyWrites(row: int, weekly: seq<seq<Option<string>>>): (r: seq<Action>)
    ensures forall i :: 0 <= i < |r| ==> r[i].Write? && r[i].row == row
  {
    if |weekly| == 0 then []
    else WeeklyWrites(row, weekly[..|weekly| - 1]) + DayWrites(row, |weekly| - 1, weekly[|weekly| - 1])
  }

  /** With four cells per week, week w's day d is written (w·4 + d)-th. */
  lemma {:induction false} WeeklyWritesIndex(row: int, weekly: seq<seq<Option<string>>>)
    requires IsGrid(weekly)
    ensures |WeeklyWrites(row, weekly)| == DaysPerWeek * |weekly|
    ensures forall w, d :: 0 <= w < |weekly| && 0 <= d < DaysPerWeek ==>
      WeeklyWrites(row, weekly)[DaysPerWeek * w + d]
        == CellWrite(row, 1 + DaysPerWeek * w + d, weekly[w][d], d == DaysPerWeek - 1)
  {
    if |weekly| > 0 {
      var init := weekly[..|weekly| - 1];
      WeeklyWritesIndex(row, init);
      forall w, d | 0 <= w < |weekly| && 0 <= d < DaysPerWeek
        ensures WeeklyWrites(row, weekly)[DaysPerWeek * w + d]
          == CellWrite(row, 1 + DaysPerWeek * w + d, weekly[w][d], d == DaysPerWeek - 1)
      {
        if w < |weekly| - 1 {
          assert init[w] == weekly[w];
        }
      }
    }
  }

  /** The first `n` cells of a trailing block of `width` columns starting at
      column `start`; `data[day]` is read for each, so the source requires
      at least `width` entries. */
  function BlockWrites(row: int, start: int, data: seq<Option<string>>, width: nat, n: nat): (r: seq<Action>)
    requires n <= width <= |data|
    ensures |r| == n
    ensures forall i :: 0 <= i < n ==> r[i] == CellWrite(row, start + i, data[i], i == width - 1)
  {
    if n == 0 then []
    else BlockWrites(row, start, data, width, n - 1) + [CellWrite(row, start + n - 1, data[n - 1], n - 1 == width - 1)]
  }

  /** A fragment's data row: its name, its week cells, then its Consultas
      and Exámenes cells. */
  function DataRow(row: int, f: FragmentExportData, weeks: nat): (r: seq<Action>)
    requires |f.consultas| >= ConsultasCols && |f.examenes| >= ExamenesCols
    ensures |r| == 1 + |WeeklyWrites(row, f.weekly)| + ConsultasCols + ExamenesCols
    ensures forall i :: 0 <= i < |r| ==> r[i].Write? && r[i].row == row
  {
    [Write(row, 0, Text(f.name), CellSubjectName)]
    + WeeklyWrites(row, f.weekly)
    + BlockWrites(row, BlockStart(weeks, ConsultasBlock), f.consultas, ConsultasCols, ConsultasCols)
    + BlockWrites(row, BlockStart(weeks, ExamenesBlock), f.examenes, ExamenesCols, ExamenesCols)
  }

  /** The shape a decoded fragment has for a sheet of `weeks` weeks. */
  predicate Shaped(f: FragmentExportData, weeks: nat) {
    && |f.weekly| == weeks
    && IsGrid(f.weekly)
    && |f.consultas| == ConsultasCols
    && |f.examenes| == ExamenesCols
  }

  /** The slot of a fragment shown at a position. */
  function SlotAt(f: FragmentExportData, weeks: nat, p: Position): Option<string>
    requires Shaped(f, weeks) && ValidPosition(weeks, p)
  {
    match p.block
    case WeekBlock(k) => f.weekly[k][p.day]
    case ConsultasBlock => f.consultas[p.day]
    case ExamenesBlock => f.examenes[p.day]
  }

  lemma DataRowWeekCell(row: int, f: FragmentExportData, weeks: nat, p: Position)
    requires Shaped(f, weeks) && ValidPosition(weeks, p) && p.block.WeekBlock?
    ensures |DataRow(row, f, weeks)| == TotalCols(weeks) + 1
    ensures DataRow(row, f, weeks)[ColumnOf(weeks, p)]
      == CellWrite(row, ColumnOf(weeks, p), SlotAt(f, weeks, p), IsLastColumn(p))
  {
    var k := p.block.k;
    var i := DaysPerWeek * k + p.day;
    var ww := WeeklyWrites(row, f.weekly);
    WeeklyWritesIndex(row, f.weekly);
    assert ColumnOf(weeks, p) == 1 + i;
    assert i < |ww|;
    assert ww[i] == CellWrite(row, 1 + i, f.weekly[k][p.day], p.day == DaysPerWeek - 1);
    assert DataRow(row, f, weeks)[1 + i] == ww[i];
  }

  lemma DataRowTrailingCell(row: int, f: FragmentExportData, weeks: nat, p: Position)
    requires Shaped(f, weeks) && ValidPosition(weeks, p) && !p.block.WeekBlock?
    ensures |DataRow(row, f, weeks)| == TotalCols(weeks) + 1
    ensures DataRow(row, f, weeks)[ColumnOf(weeks, p)]
      == CellWrite(row, ColumnOf(weeks, p), SlotAt(f, weeks, p), IsLastColumn(p))
  {
    var ww := WeeklyWrites(row, f.weekly);
    WeeklyWritesIndex(row, f.weekly);
    var front := [Write(row, 0, Text(f.name), CellSubjectName)] + ww;
    var cw := BlockWrites(row, BlockStart(weeks, ConsultasBlock), f.consultas, ConsultasCols, ConsultasCols);
    var ew := BlockWrites(row, BlockStart(weeks, ExamenesBlock), f.examenes, ExamenesCols, ExamenesCols);
    assert DataRow(row, f, weeks) == front + cw + ew;
    assert |front| == BlockStart(weeks, ConsultasBlock);
    if p.block.ConsultasBlock? {
      assert (front + cw + ew)[ColumnOf(weeks, p)] == cw[p.day];
    } else {
      assert (front + cw + ew)[ColumnOf(weeks, p)] == ew[p.day];
    }
  }

  /** A shaped fragment's row has one action per column. */
  lemma DataRowLength(row: int, f: FragmentExportData, weeks: nat)
    requires Shaped(f, weeks)
    ensures |DataRow(row, f, weeks)| == TotalCols(weeks) + 1
  {
    WeeklyWritesIndex(row, f.weekly);
  }

  /** Column 0 names the fragment; column c shows the slot at the position
      of column c, in that position's style. */
  lemma DataRowCells(row: int, f: FragmentExportData, weeks: nat)
    requires Shaped(f, weeks)
    ensures |DataRow(row, f, weeks)| == TotalCols(weeks) + 1
    ensures DataRow(row, f, weeks)[0] == Write(row, 0, Text(f.name), CellSubjectName)
    ensures forall c :: 1 <= c <= TotalCols(weeks) ==>
      DataRow(row, f, weeks)[c]
        == CellWrite(row, c, SlotAt(f, weeks, PositionOf(weeks, c)), IsLastColumn(PositionOf(weeks, c)))
  {
    DataRowTrailingCell(row, f, weeks, Position(ConsultasBlock, 0));
    forall c | 1 <= c <= TotalCols(weeks)
      ensures DataRow(row, f, weeks)[c]
        == CellWrite(row, c, SlotAt(f, weeks, PositionOf(weeks, c)), IsLastColumn(PositionOf(weeks, c)))
    {
      var p := PositionOf(weeks, c);
      if p.block.WeekBlock? {
        DataRowWeekCell(row, f, weeks, p);
      } else {
        DataRowTrailingCell(row, f, weeks, p);
      }
    }
  }

  /** The export record of a fragment whose cells are read from the stored
      array `values`. */
  function FromValues(name: string, values: seq<string>, weeks: nat): (f: FragmentExportData)
    ensures Shaped(f, weeks)
  {
    FragmentExportData(name, WeekRows(values, weeks),
      Slots(values, DaysPerWeek * weeks, ConsultasCols),
      Slots(values, DaysPerWeek * weeks + ConsultasCols, ExamenesCols))
  }

  /** The export record of a fragment whose cells come from the three
      decoders. */
  function Decoded(name: string, data: Json, weeks: nat): (f: FragmentExportData)
    ensures f == FromValues(name, ValuesOf(data), weeks)
  {
    FragmentExportData(name, DecodeWeekly(data, weeks), DecodeConsultas(data, weeks), DecodeExamenes(data, weeks))
  }

  lemma WeekSlot(name: string, values: seq<string>, weeks: nat, p: Position)
    requires ValidPosition(weeks, p) && p.block.WeekBlock?
    ensures SlotAt(FromValues(name, values, weeks), weeks, p) == Slot(values, ColumnOf(weeks, p) - 1)
  {
    var k := p.block.k;
    var i := DaysPerWeek * k + p.day;
    var row := Slots(values, DaysPerWeek * k, DaysPerWeek);
    assert ColumnOf(weeks, p) - 1 == i;
    assert FromValues(name, values, weeks).weekly[k] == row;
    assert row[p.day] == Slot(values, i);
  }

  lemma ConsultasSlot(name: string, values: seq<string>, weeks: nat, p: Position)
    requires ValidPosition(weeks, p) && p.block.ConsultasBlock?
    ensures SlotAt(FromValues(name, values, weeks), weeks, p) == Slot(values, ColumnOf(weeks, p) - 1)
  {
    var i := DaysPerWeek * weeks + p.day;
    assert ColumnOf(weeks, p) - 1 == i;
    assert FromValues(name, values, weeks).consultas[p.day] == Slot(values, i);
  }

  lemma ExamenesSlot(name: string, values: seq<string>, weeks: nat, p: Position)
    requires ValidPosition(weeks, p) && p.block.ExamenesBlock?
    ensures SlotAt(FromValues(name, values, weeks), weeks, p) == Slot(values, ColumnOf(weeks, p) - 1)
  {
    var i := DaysPerWeek * weeks + ConsultasCols + p.day;
    assert ColumnOf(weeks, p) - 1 == i;
    assert FromValues(name, values, weeks).examenes[p.day] == Slot(values, i);
  }

  /** A fragment read from `values` shows, at each position, the stored cell
      of that position's column. */
  lemma FromValuesSlotAt(name: string, values: seq<string>, weeks: nat, p: Position)
    requires ValidPosition(weeks, p)
    ensures SlotAt(FromValues(name, values, weeks), weeks, p) == Slot(values, ColumnOf(weeks, p) - 1)
  {
    match p.block
    case WeekBlock(_) => WeekSlot(name, values, weeks, p);
    case ConsultasBlock => ConsultasSlot(name, values, weeks, p);
    case ExamenesBlock => ExamenesSlot(name, values, weeks, p);
  }

  /** The data row of a fragment read from `values` shows, at column c,
      stored cell c - 1 in the style of its code and column. */
  lemma FromValuesRowShows(values: seq<string>, weeks: nat, name: string, row: int, c: int)
    requires 1 <= c <= TotalCols(weeks)
    ensures |DataRow(row, FromValues(name, values, weeks), weeks)| == TotalCols(weeks) + 1
    ensures DataRow(row, FromValues(name, values, weeks), weeks)[c]
      == CellWrite(row, c, Slot(values, c - 1), IsLastColumn(PositionOf(weeks, c)))
  {
    var f := FromValues(name, values, weeks);
    var p := PositionOf(weeks, c);
    DataRowCells(row, f, weeks);
    FromValuesSlotAt(name, values, weeks, p);
  }

  /** From the stored cells to the sheet: in the data row of a fragment
      decoded from `data`, column c (1 ≤ c ≤ TotalCols) shows stored cell
      c - 1 when it is a non-empty string and is empty otherwise; it is red
      exactly when that code is critical, and has a thick right border
      exactly when c closes a block. */
  lemma ExportShowsStoredCells(data: Json, weeks: nat, name: string, row: int, c: int)
    requires 1 <= c <= TotalCols(weeks)
    ensures |DataRow(row, Decoded(name, data, weeks), weeks)| == TotalCols(weeks) + 1
    ensures var cell := Slot(ValuesOf(data), c - 1);
      var w := DataRow(row, Decoded(name, data, weeks), weeks)[c];
      && w.Write?
      && w.col == c
      && w.content == Text(CellText(cell))
      && (Fill(w.style) == Some(CriticalRed) <==> cell.Some? && IsCritical(cell.value))
      && (RightBorder(w.style) == Medium <==> IsLastColumn(PositionOf(weeks, c)))
  {
    var values := ValuesOf(data);
    FromValuesRowShows(values, weeks, name, row, c);
    CellStyleMeaning(IsLastColumn(PositionOf(weeks, c)), Slot(values, c - 1));
  }

  // ---------------------------------------------------------------------
  // Header rows
  // ---------------------------------------------------------------------

  /** The blocks in column order: the weeks, then Consultas, then Exámenes. */
  function BlockAt(weeks: nat, i: nat): (b: Block)
    requires i < weeks + 2
    ensures b.WeekBlock? ==> b.k < weeks
  {
    if i < weeks then WeekBlock(i) else if i == weeks then ConsultasBlock else ExamenesBlock
  }

  /** The place of a block in column order. */
  function BlockIndex(weeks: nat, b: Block): nat {
    match b
    case WeekBlock(k) => k
    case ConsultasBlock => weeks
    case ExamenesBlock => weeks + 1
  }

  /** The title row 1 shows over a block. */
  function BlockTitle(b: Block): string {
    match b
    case WeekBlock(k) => "Semana " + NatToString(k + 1)
    case ConsultasBlock => "Consultas"
    case ExamenesBlock => "Exámenes Finales"
  }

  /** Different blocks have different titles. */
  lemma BlockTitleInjective(b1: Block, b2: Block)
    requires BlockTitle(b1) == BlockTitle(b2)
    ensures b1 == b2
  {
    assert BlockTitle(ConsultasBlock)[0] != BlockTitle(ExamenesBlock)[0];
    if b1.WeekBlock? && b2.WeekBlock? {
      var s1, s2 := NatToString(b1.k + 1), NatToString(b2.k + 1);
      assert s1 == BlockTitle(b1)[7..];
      assert s2 == BlockTitle(b2)[7..];
      NatToStringInjective(b1.k + 1, b2.k + 1);
    }
  }

  /** Row 1, the weeks' part: "Semana 1" over columns 1-4, "Semana 2" over
      5-8, and so on. */
  function WeekTitles(n: nat): (r: seq<Action>)
    ensures |r| == n
  {
    if n == 0 then []
    else
      var colStart := 1 + (n - 1) * DaysPerWeek;
      WeekTitles(n - 1) + [Merge(1, colStart, colStart + DaysPerWeek - 1, "Semana " + NatToString(n), HeaderWeek)]
  }

  /** Row 1: the week titles, then "Consultas" and "Exámenes Finales". */
  function TitleRow(weeks: nat): seq<Action> {
    var consultasStart := 1 + weeks * DaysPerWeek;
    var consultasEnd := consultasStart + ConsultasCols - 1;
    var examenesStart := consultasEnd + 1;
    var examenesEnd := examenesStart + ExamenesCols - 1;
    WeekTitles(weeks)
    + [Merge(1, consultasStart, consultasEnd, "Consultas", HeaderWeek),
       Merge(1, examenesStart, examenesEnd, "Exámenes Finales", HeaderWeek)]
  }

  /** Row 1 merges every block, in column order, under its title. */
  lemma TitleRowBlocks(weeks: nat)
    ensures |TitleRow(weeks)| == weeks + 2
    ensures forall i :: 0 <= i < weeks + 2 ==>
      TitleRow(weeks)[i] == Merge(1, BlockStart(weeks, BlockAt(weeks, i)), BlockEnd(weeks, BlockAt(weeks, i)),
                                  BlockTitle(BlockAt(weeks, i)), HeaderWeek)
  {
    WeekTitlesBlocks(weeks);
  }

  lemma {:induction false} WeekTitlesBlocks(n: nat)
    ensures forall k :: 0 <= k < n ==>
      WeekTitles(n)[k] == Merge(1, BlockStart(n, WeekBlock(k)), BlockEnd(n, WeekBlock(k)), BlockTitle(WeekBlock(k)), HeaderWeek)
  {
    if n > 0 {
      WeekTitlesBlocks(n - 1);
    }
  }

  /** The header merges tile the data columns: a column lies in the range
      of the i-th block exactly when i is the index of the block the column
      belongs to. */
  lemma BlocksTile(weeks: nat, c: int, i: nat)
    requires 1 <= c <= TotalCols(weeks) && i < weeks + 2
    ensures BlockStart(weeks, BlockAt(weeks, i)) <= c <= BlockEnd(weeks, BlockAt(weeks, i))
      <==> i == BlockIndex(weeks, PositionOf(weeks, c).block)
  {
    var p := PositionOf(weeks, c);
    if i < weeks && p.block.WeekBlock? {
      var k := p.block.k;
      assert c - 1 == DaysPerWeek * k + p.day;
      if i < k {
        assert DaysPerWeek * i + DaysPerWeek <= DaysPerWeek * k;
      } else if i > k {
        assert DaysPerWeek * k + DaysPerWeek <= DaysPerWeek * i;
      }
    } else if i < weeks {
      assert DaysPerWeek * i + DaysPerWeek <= DaysPerWeek * weeks;
    } else if p.block.WeekBlock? {
      assert DaysPerWeek * p.block.k + DaysPerWeek <= DaysPerWeek * weeks;
    }
  }

  /** Every merge spans at least two columns of one row, so none is a
      single cell. */
  lemma BlocksWide(weeks: nat, b: Block)
    ensures BlockStart(weeks, b) < BlockEnd(weeks, b)
  {
  }

  /** The date labels of a list of weeks, one per week. */
  function Labels(ws: seq<WeekDateInfo>): (r: seq<string>)
    ensures |r| == |ws|
  {
    seq(|ws|, k requires 0 <= k < |ws| => RangeLabel(ws[k].startDate))
  }

  /** Row 0, the weeks' part: each week's date label over its four
      columns. */
  function WeekLabels(labels: seq<string>): (r: seq<Action>)
    ensures |r| == |labels|
  {
    if |labels| == 0 then []
    else
      var colStart := 1 + (|labels| - 1) * DaysPerWeek;
      WeekLabels(labels[..|labels| - 1])
      + [Merge(0, colStart, colStart + DaysPerWeek - 1, labels[|labels| - 1], HeaderWeek)]
  }

  /** Row 0: "Asignaturas", the week labels, and the labels of the two
      final weeks when their dates exist. */
  function DateRow(weeks: nat, labels: seq<string>, finalLabels: seq<string>): seq<Action> {
    var consultasStart := 1 + weeks * DaysPerWeek;
    var consultasEnd := consultasStart + ConsultasCols - 1;
    var examenesStart := consultasEnd + 1;
    var examenesEnd := examenesStart + ExamenesCols - 1;
    [Write(0, 0, Text("Asignaturas"), HeaderBold)]
    + WeekLabels(labels)
    + (if |finalLabels| > 0 then [Merge(0, consultasStart, consultasEnd, finalLabels[0], HeaderWeek)] else [])
    + (if |finalLabels| > 1 then [Merge(0, examenesStart, examenesEnd, finalLabels[1], HeaderWeek)] else [])
  }

  lemma {:induction false} WeekLabelsBlocks(labels: seq<string>)
    ensures forall k :: 0 <= k < |labels| ==>
      WeekLabels(labels)[k] == Merge(0, BlockStart(|labels|, WeekBlock(k)), BlockEnd(|labels|, WeekBlock(k)), labels[k], HeaderWeek)
  {
    if |labels| > 0 {
      var init := labels[..|labels| - 1];
      WeekLabelsBlocks(init);
      forall k | 0 <= k < |labels| - 1
        ensures WeekLabels(labels)[k]
          == Merge(0, BlockStart(|labels|, WeekBlock(k)), BlockEnd(|labels|, WeekBlock(k)), labels[k], HeaderWeek)
      {
        assert init[k] == labels[k];
      }
    }
  }

  lemma DateRowWeeks(weeks: nat, labels: seq<string>, finalLabels: seq<string>)
    requires |labels| == weeks
    ensures |DateRow(weeks, labels, finalLabels)| == 1 + weeks + (if |finalLabels| >= 2 then 2 else |finalLabels|)
    ensures DateRow(weeks, labels, finalLabels)[0] == Write(0, 0, Text("Asignaturas"), HeaderBold)
    ensures forall k :: 0 <= k < weeks ==>
      DateRow(weeks, labels, finalLabels)[1 + k]
        == Merge(0, BlockStart(weeks, WeekBlock(k)), BlockEnd(weeks, WeekBlock(k)), labels[k], HeaderWeek)
  {
    var merges := WeekLabels(labels);
    var head := [Write(0, 0, Text("Asignaturas"), HeaderBold)];
    WeekLabelsBlocks(labels);
    forall k | 0 <= k < weeks
      ensures DateRow(weeks, labels, finalLabels)[1 + k] == merges[k]
    {
      assert (head + merges)[1 + k] == merges[k];
    }
  }

  lemma DateRowFinals(weeks: nat, labels: seq<string>, finalLabels: seq<string>)
    requires |labels| == weeks && |finalLabels| >= 2
    ensures |DateRow(weeks, labels, finalLabels)| == weeks + 3
    ensures DateRow(weeks, labels, finalLabels)[weeks + 1]
      == Merge(0, BlockStart(weeks, ConsultasBlock), BlockEnd(weeks, ConsultasBlock), finalLabels[0], HeaderWeek)
    ensures DateRow(weeks, labels, finalLabels)[weeks + 2]
      == Merge(0, BlockStart(weeks, ExamenesBlock), BlockEnd(weeks, ExamenesBlock), finalLabels[1], HeaderWeek)
  {
    var front := [Write(0, 0, Text("Asignaturas"), HeaderBold)] + WeekLabels(labels);
    assert |front| == weeks + 1;
  }

  /** The label row 0 shows over block `i`. */
  function LabelOfBlock(weeks: nat, labels: seq<string>, finalLabels: seq<string>, i: nat): string
    requires |labels| == weeks && |finalLabels| >= 2 && i < weeks + 2
  {
    if i < weeks then labels[i] else finalLabels[i - weeks]
  }

  /** Row 0 starts with "Asignaturas" over the subject column. With both
      final-week labels known, it then carries one label per block, in
      column order, over the block's columns: the same columns row 1
      merges for that block (`TitleRowBlocks`). Without them (no lective
      weeks) only the week labels follow. */
  lemma DateRowBlocks(weeks: nat, labels: seq<string>, finalLabels: seq<string>)
    requires |labels| == weeks
    requires |finalLabels| == 0 || |finalLabels| == 2
    ensures DateRow(weeks, labels, finalLabels)[0] == Write(0, 0, Text("Asignaturas"), HeaderBold)
    ensures |finalLabels| == 0 ==> |DateRow(weeks, labels, finalLabels)| == weeks + 1
    ensures |finalLabels| == 2 ==> |DateRow(weeks, labels, finalLabels)| == weeks + 3
    ensures |finalLabels| == 2 ==> forall i :: 0 <= i < weeks + 2 ==>
      DateRow(weeks, labels, finalLabels)[1 + i]
        == Merge(0, BlockStart(weeks, BlockAt(weeks, i)), BlockEnd(weeks, BlockAt(weeks, i)),
                 LabelOfBlock(weeks, labels, finalLabels, i), HeaderWeek)
  {
    DateRowWeeks(weeks, labels, finalLabels);
    if |finalLabels| == 2 {
      DateRowFinals(weeks, labels, finalLabels);
      forall i | 0 <= i < weeks + 2
        ensures DateRow(weeks, labels, finalLabels)[1 + i]
          == Merge(0, BlockStart(weeks, BlockAt(weeks, i)), BlockEnd(weeks, BlockAt(weeks, i)),
                   LabelOfBlock(weeks, labels, finalLabels, i), HeaderWeek)
      {
        if i < weeks {
          assert BlockAt(weeks, i) == WeekBlock(i);
        } else if i == weeks {
          assert BlockAt(weeks, i) == ConsultasBlock;
        } else {
          assert BlockAt(weeks, i) == ExamenesBlock;
        }
      }
    }
  }

  /** Row 2 cells of one block: 1, 2, ... in its columns, the last with a
      thick right border. */
  function DayNumbers(colStart: int, width: nat, n: nat): (r: seq<Action>)
    requires n <= width
    ensures |r| == n
    ensures forall i :: 0 <= i < n ==>
      r[i] == Write(2, colStart + i, Number(i + 1), DayHeaderStyle(i == width - 1))
  {
    if n == 0 then []
    else DayNumbers(colStart, width, n - 1) + [Write(2, colStart + n - 1, Number(n), DayHeaderStyle(n - 1 == width - 1))]
  }

  /** Row 2, the weeks' part. */
  function WeekDayNumbers(n: nat): (r: seq<Action>)
    ensures |r| == DaysPerWeek * n
  {
    if n == 0 then []
    else WeekDayNumbers(n - 1) + DayNumbers(1 + (n - 1) * DaysPerWeek, DaysPerWeek, DaysPerWeek)
  }

  /** Row 2: day numbers under every block. */
  function DayRow(weeks: nat): seq<Action> {
    var consultasStart := 1 + weeks * DaysPerWeek;
    var examenesStart := consultasStart + ConsultasCols;
    WeekDayNumbers(weeks)
    + DayNumbers(consultasStart, ConsultasCols, ConsultasCols)
    + DayNumbers(examenesStart, ExamenesCols, ExamenesCols)
  }

  lemma {:induction false} WeekDayNumbersIndex(n: nat, w: nat, d: nat)
    requires w < n && d < DaysPerWeek
    ensures WeekDayNumbers(n)[DaysPerWeek * w + d]
      == Write(2, 1 + DaysPerWeek * w + d, Number(d + 1), DayHeaderStyle(d == DaysPerWeek - 1))
  {
    var prev := WeekDayNumbers(n - 1);
    var last := DayNumbers(1 + (n - 1) * DaysPerWeek, DaysPerWeek, DaysPerWeek);
    assert WeekDayNumbers(n) == prev + last;
    if w < n - 1 {
      WeekDayNumbersIndex(n - 1, w, d);
      assert (prev + last)[DaysPerWeek * w + d] == prev[DaysPerWeek * w + d];
    } else {
      assert (prev + last)[DaysPerWeek * w + d] == last[d];
    }
  }

  lemma DayRowWeekCell(weeks: nat, p: Position)
    requires ValidPosition(weeks, p) && p.block.WeekBlock?
    ensures |DayRow(weeks)| == TotalCols(weeks)
    ensures DayRow(weeks)[ColumnOf(weeks, p) - 1]
      == Write(2, ColumnOf(weeks, p), Number(p.day + 1), DayHeaderStyle(IsLastColumn(p)))
  {
    var k := p.block.k;
    WeekDayNumbersIndex(weeks, k, p.day);
    assert ColumnOf(weeks, p) - 1 == DaysPerWeek * k + p.day;
    assert DaysPerWeek * k + p.day < DaysPerWeek * weeks;
    assert DayRow(weeks)[DaysPerWeek * k + p.day] == WeekDayNumbers(weeks)[DaysPerWeek * k + p.day];
  }

  lemma DayRowTrailingCell(weeks: nat, p: Position)
    requires ValidPosition(weeks, p) && !p.block.WeekBlock?
    ensures |DayRow(weeks)| == TotalCols(weeks)
    ensures DayRow(weeks)[ColumnOf(weeks, p) - 1]
      == Write(2, ColumnOf(weeks, p), Number(p.day + 1), DayHeaderStyle(IsLastColumn(p)))
  {
    var front := WeekDayNumbers(weeks);
    var cs := 1 + weeks * DaysPerWeek;
    var cw := DayNumbers(cs, ConsultasCols, ConsultasCols);
    var ew := DayNumbers(cs + ConsultasCols, ExamenesCols, ExamenesCols);
    assert DayRow(weeks) == front + cw + ew;
    if p.block.ConsultasBlock? {
      assert (front + cw + ew)[ColumnOf(weeks, p) - 1] == cw[p.day];
    } else {
      assert (front + cw + ew)[ColumnOf(weeks, p) - 1] == ew[p.day];
    }
  }

  /** Row 2 writes one cell per data column, in column order: the column's
      place within its block, counted from 1, with a thick right border
      exactly where the block ends. */
  lemma DayRowCells(weeks: nat)
    ensures |DayRow(weeks)| == TotalCols(weeks)
    ensures forall c :: 1 <= c <= TotalCols(weeks) ==>
      DayRow(weeks)[c - 1]
        == Write(2, c, Number(PositionOf(weeks, c).day + 1), DayHeaderStyle(IsLastColumn(PositionOf(weeks, c))))
  {
    DayRowTrailingCell(weeks, Position(ConsultasBlock, 0));
    forall c | 1 <= c <= TotalCols(weeks)
      ensures DayRow(weeks)[c - 1]
        == Write(2, c, Number(PositionOf(weeks, c).day + 1), DayHeaderStyle(IsLastColumn(PositionOf(weeks, c))))
    {
      var p := PositionOf(weeks, c);
      if p.block.WeekBlock? {
        DayRowWeekCell(weeks, p);
      } else {
        DayRowTrailingCell(weeks, p);
      }
    }
  }
}
