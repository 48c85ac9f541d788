/** How a fragment's cells are stored and read back.

    A fragment's data is a JSON object whose "values" member is a flat
    array of activity codes: four cells per lective week (index 4w + d for
    week w, day d), then four Consultas cells, then five Exámenes Finales
    cells. The export reads it back into a weeks×4 grid and the two
    trailing blocks; a slot holds `Some(code)` exactly when the array has a
    non-empty string at its index. */
module FragmentCodec {
  import opened Wrappers

  /** A JSON document, as serde_json's `Value` sees it. Numbers are kept as
      integers: the decoder never looks inside them. */
  datatype Json =
    | JNull
    | JBool(b: bool)
    | JNumber(n: int)
    | JString(s: string)
    | JArray(items: seq<Json>)
    | JObject(fields: map<string, Json>)

  const DaysPerWeek := 4
  const ConsultasCols := 4
  const ExamenesCols := 5

  /** The text of an array element: its string, or "" for any other JSON
      value (`as_str().unwrap_or("")`). */
  function ElementText(v: Json): string {
    if v.JString? then v.s else ""
  }

  function Texts(items: seq<Json>): (ts: seq<string>)
    ensures |ts| == |items|
    ensures forall i :: 0 <= i < |items| ==> ts[i] == ElementText(items[i])
  {
    if |items| == 0 then [] else [ElementText(items[0])] + Texts(items[1..])
  }

  /** The `values` array of a fragment, as strings: empty when the document
      is not an object, has no "values" member, or that member is not an
      array. */
  function ValuesOf(data: Json): seq<string> {
    if data.JObject? && "values" in data.fields && data.fields["values"].JArray? then
      Texts(data.fields["values"].items)
    else []
  }

  /** `values.get(index)` followed by the emptiness test. */
  function Slot(values: seq<string>, index: int): Option<string> {
    if 0 <= index < |values| && values[index] != "" then Some(values[index]) else None
  }

  /** `count` slots read from consecutive indices, starting at `start`. */
  function Slots(values: seq<string>, start: nat, count: nat): (r: seq<Option<string>>)
    ensures |r| == count
    ensures forall i :: 0 <= i < count ==> r[i] == Slot(values, start + i)
  {
    if count == 0 then [] else Slots(values, start, count - 1) + [Slot(values, start + count - 1)]
  }

  /** The first `n` weeks of the grid, one row of four slots per week. */
  function WeekRows(values: seq<string>, n: nat): (grid: seq<seq<Option<string>>>)
    ensures |grid| == n
    ensures forall w :: 0 <= w < n ==> grid[w] == Slots(values, DaysPerWeek * w, DaysPerWeek)
  {
    if n == 0 then [] else WeekRows(values, n - 1) + [Slots(values, DaysPerWeek * (n - 1), DaysPerWeek)]
  }

  /** `parse_fragment_data`. A negative week count makes the source panic
      when it reserves the grid, so it is excluded. */
  function DecodeWeekly(data: Json, weeks: int): (grid: seq<seq<Option<string>>>)
    requires weeks >= 0
    ensures |grid| == weeks
    ensures forall w :: 0 <= w < weeks ==> |grid[w]| == DaysPerWeek
    ensures forall w, d :: 0 <= w < weeks && 0 <= d < DaysPerWeek ==>
      grid[w][d] == Slot(ValuesOf(data), DaysPerWeek * w + d)
  {
    WeekRows(ValuesOf(data), weeks)
  }

  /** `parse_consultas_data`: the four cells after the lective weeks. */
  function DecodeConsultas(data: Json, weeks: int): (r: seq<Option<string>>)
    requires weeks >= 0
    ensures |r| == ConsultasCols
    ensures forall i :: 0 <= i < ConsultasCols ==> r[i] == Slot(ValuesOf(data), DaysPerWeek * weeks + i)
  {
    Slots(ValuesOf(data), DaysPerWeek * weeks, ConsultasCols)
  }

  /** `parse_examenes_data`: the five cells after Consultas. */
  function DecodeExamenes(data: Json, weeks: int): (r: seq<Option<string>>)
    requires weeks >= 0
    ensures |r| == ExamenesCols
    ensures forall i :: 0 <= i < ExamenesCols ==>
      r[i] == Slot(ValuesOf(data), DaysPerWeek * weeks + ConsultasCols + i)
  {
    var start := DaysPerWeek * weeks + ConsultasCols;
    Slots(ValuesOf(data), start, ExamenesCols)
  }

  /** A decoded slot never holds the empty string. */
  lemma SlotNeverEmpty(values: seq<string>, index: int)
    ensures Slot(values, index) != Some("")
  {
  }

  /** A document without a usable `values` array decodes to empty slots. */
  lemma NoValuesNoSlots(data: Json, weeks: nat)
    requires ValuesOf(data) == []
    ensures forall w, d :: 0 <= w < weeks && 0 <= d < DaysPerWeek ==> DecodeWeekly(data, weeks)[w][d] == None
    ensures forall i :: 0 <= i < ConsultasCols ==> DecodeConsultas(data, weeks)[i] == None
    ensures forall i :: 0 <= i < ExamenesCols ==> DecodeExamenes(data, weeks)[i] == None
  {
  }

  // ---------------------------------------------------------------------
  // The flat layout, and encoding back into it
  // ---------------------------------------------------------------------

  /** The number of cells of a fragment with `weeks` lective weeks. */
  function CellCount(weeks: nat): nat {
    DaysPerWeek * weeks + ConsultasCols + ExamenesCols
  }

  /** The flat cell sequence of a grid, row after row. */
  function Flatten(grid: seq<seq<Option<string>>>): seq<Option<string>> {
    if |grid| == 0 then [] else Flatten(grid[..|grid| - 1]) + grid[|grid| - 1]
  }

  predicate IsGrid(grid: seq<seq<Option<string>>>) {
    forall w :: 0 <= w < |grid| ==> |grid[w]| == DaysPerWeek
  }

  lemma {:induction false} FlattenLength(grid: seq<seq<Option<string>>>)
    requires IsGrid(grid)
    ensures |Flatten(grid)| == DaysPerWeek * |grid|
  {
    if |grid| > 0 {
      FlattenLength(grid[..|grid| - 1]);
    }
  }

  /** Flattening puts week w, day d at index 4w + d. */
  lemma {:induction false} FlattenIndex(grid: seq<seq<Option<string>>>)
    requires IsGrid(grid)
    ensures |Flatten(grid)| == DaysPerWeek * |grid|
    ensures forall w, d :: 0 <= w < |grid| && 0 <= d < DaysPerWeek ==>
      Flatten(grid)[DaysPerWeek * w + d] == grid[w][d]
  {
    if |grid| > 0 {
      var init := grid[..|grid| - 1];
      FlattenIndex(init);
      forall w, d | 0 <= w < |grid| && 0 <= d < DaysPerWeek
        ensures Flatten(grid)[DaysPerWeek * w + d] == grid[w][d]
      {
        if w < |grid| - 1 {
          assert init[w] == grid[w];
        }
      }
    }
  }

  /** The cell text that stores a slot: the code, or "" for an empty slot. */
  function CellText(c: Option<string>): string {
    c.GetOr("")
  }

  /** The stored form of a sequence of slots. */
  function EncodeCells(cells: seq<Option<string>>): (items: seq<Json>)
    ensures |items| == |cells|
    ensures forall i :: 0 <= i < |cells| ==> items[i] == JString(CellText(cells[i]))
  {
    if |cells| == 0 then [] else [JString(CellText(cells[0]))] + EncodeCells(cells[1..])
  }

  /** The document the frontend stores for a fragment: one "values" array
      holding the week cells, then Consultas, then Exámenes. */
  function Encode(grid: seq<seq<Option<string>>>, consultas: seq<Option<string>>,
                  examenes: seq<Option<string>>): Json
  {
    JObject(map["values" := JArray(EncodeCells(Flatten(grid) + consultas + examenes))])
  }

  /** What a well-formed fragment looks like: the grid has four slots per
      week, the trailing blocks four and five, and no slot holds "". */
  predicate WellFormed(grid: seq<seq<Option<string>>>, consultas: seq<Option<string>>,
                       examenes: seq<Option<string>>)
  {
    && IsGrid(grid)
    && |consultas| == ConsultasCols
    && |examenes| == ExamenesCols
    && (forall w, d :: 0 <= w < |grid| && 0 <= d < DaysPerWeek ==> grid[w][d] != Some(""))
    && (forall i :: 0 <= i < |consultas| ==> consultas[i] != Some(""))
    && (forall i :: 0 <= i < |examenes| ==> examenes[i] != Some(""))
  }

  /** The strings of a stored slot sequence are the slots' cell texts. */
  lemma ValuesOfEncodeCells(cells: seq<Option<string>>)
    ensures |ValuesOf(JObject(map["values" := JArray(EncodeCells(cells))]))| == |cells|
    ensures forall i :: 0 <= i < |cells| ==>
      ValuesOf(JObject(map["values" := JArray(EncodeCells(cells))]))[i] == CellText(cells[i])
  {
  }

  /** The flat cells of a well-formed fragment, in stored order. */
  function Cells(grid: seq<seq<Option<string>>>, consultas: seq<Option<string>>,
                 examenes: seq<Option<string>>): (cells: seq<Option<string>>)
    requires WellFormed(grid, consultas, examenes)
    ensures |cells| == CellCount(|grid|)
  {
    FlattenLength(grid);
    Flatten(grid) + consultas + examenes
  }

  /** No flat cell of a well-formed fragment holds "". */
  lemma CellNotEmpty(grid: seq<seq<Option<string>>>, consultas: seq<Option<string>>,
                     examenes: seq<Option<string>>, i: int)
    requires WellFormed(grid, consultas, examenes)
    requires 0 <= i < CellCount(|grid|)
    ensures Cells(grid, consultas, examenes)[i] != Some("")
  {
    var cells := Cells(grid, consultas, examenes);
    FlattenLength(grid);
    if i < DaysPerWeek * |grid| {
      var w, d := i / DaysPerWeek, i % DaysPerWeek;
      assert i == DaysPerWeek * w + d;
      FlattenIndex(grid);
      assert cells[i] == grid[w][d];
    } else if i < DaysPerWeek * |grid| + ConsultasCols {
      assert cells[i] == consultas[i - DaysPerWeek * |grid|];
    } else {
      assert cells[i] == examenes[i - DaysPerWeek * |grid| - ConsultasCols];
    }
  }

  /** In a stored fragment every index holds the slot it was stored from. */
  lemma SlotsOfEncode(grid: seq<seq<Option<string>>>, consultas: seq<Option<string>>,
                      examenes: seq<Option<string>>, i: int)
    requires WellFormed(grid, consultas, examenes)
    requires 0 <= i < CellCount(|grid|)
    ensures Slot(ValuesOf(Encode(grid, consultas, examenes)), i) == Cells(grid, consultas, examenes)[i]
  {
    var cells := Cells(grid, consultas, examenes);
    assert Encode(grid, consultas, examenes) == JObject(map["values" := JArray(EncodeCells(cells))]);
    ValuesOfEncodeCells(cells);
    CellNotEmpty(grid, consultas, examenes, i);
  }

  /** Week rows read from an array whose slots are a grid's cells are that
      grid. */
  lemma WeekRowsOfSlots(values: seq<string>, grid: seq<seq<Option<string>>>)
    requires IsGrid(grid)
    requires forall w, d :: 0 <= w < |grid| && 0 <= d < DaysPerWeek ==>
      Slot(values, DaysPerWeek * w + d) == grid[w][d]
    ensures WeekRows(values, |grid|) == grid
  {
    var g := WeekRows(values, |grid|);
    forall w | 0 <= w < |grid|
      ensures g[w] == grid[w]
    {
      assert g[w] == Slots(values, DaysPerWeek * w, DaysPerWeek);
    }
  }

  /** Stored slot 4w + d of a fragment is its week w, day d. */
  lemma StoredWeekSlot(grid: seq<seq<Option<string>>>, consultas: seq<Option<string>>,
                       examenes: seq<Option<string>>, w: int, d: int)
    requires WellFormed(grid, consultas, examenes)
    requires 0 <= w < |grid| && 0 <= d < DaysPerWeek
    ensures Slot(ValuesOf(Encode(grid, consultas, examenes)), DaysPerWeek * w + d) == grid[w][d]
  {
    FlattenIndex(grid);
    SlotsOfEncode(grid, consultas, examenes, DaysPerWeek * w + d);
    assert Cells(grid, consultas, examenes)[DaysPerWeek * w + d] == grid[w][d];
  }

  lemma DecodeEncodeWeekly(grid: seq<seq<Option<string>>>, consultas: seq<Option<string>>,
                           examenes: seq<Option<string>>)
    requires WellFormed(grid, consultas, examenes)
    ensures DecodeWeekly(Encode(grid, consultas, examenes), |grid|) == grid
  {
    var values := ValuesOf(Encode(grid, consultas, examenes));
    forall w, d | 0 <= w < |grid| && 0 <= d < DaysPerWeek
      ensures Slot(values, DaysPerWeek * w + d) == grid[w][d]
    {
      StoredWeekSlot(grid, consultas, examenes, w, d);
    }
    WeekRowsOfSlots(values, grid);
  }

  /** Slots read from an array agreeing with `cells` on a range are that
      range of `cells`. */
  lemma SlotsSlice(values: seq<string>, cells: seq<Option<string>>, base: nat, n: nat)
    requires base + n <= |cells|
    requires forall k :: base <= k < base + n ==> Slot(values, k) == cells[k]
    ensures Slots(values, base, n) == cells[base..base + n]
  {
  }

  lemma DecodeEncodeConsultas(grid: seq<seq<Option<string>>>, consultas: seq<Option<string>>,
                              examenes: seq<Option<string>>)
    requires WellFormed(grid, consultas, examenes)
    ensures DecodeConsultas(Encode(grid, consultas, examenes), |grid|) == consultas
  {
    var values := ValuesOf(Encode(grid, consultas, examenes));
    var cells := Cells(grid, consultas, examenes);
    var base := DaysPerWeek * |grid|;
    forall k | base <= k < base + ConsultasCols
      ensures Slot(values, k) == cells[k]
    {
      SlotsOfEncode(grid, consultas, examenes, k);
    }
    SlotsSlice(values, cells, base, ConsultasCols);
    FlattenLength(grid);
    assert cells[base..base + ConsultasCols] == consultas;
  }

  lemma DecodeEncodeExamenes(grid: seq<seq<Option<string>>>, consultas: seq<Option<string>>,
                             examenes: seq<Option<string>>)
    requires WellFormed(grid, consultas, examenes)
    ensures DecodeExamenes(Encode(grid, consultas, examenes), |grid|) == examenes
  {
    var values := ValuesOf(Encode(grid, consultas, examenes));
    var cells := Cells(grid, consultas, examenes);
    var base := DaysPerWeek * |grid| + ConsultasCols;
    forall k | base <= k < base + ExamenesCols
      ensures Slot(values, k) == cells[k]
    {
      SlotsOfEncode(grid, consultas, examenes, k);
    }
    SlotsSlice(values, cells, base, ExamenesCols);
    FlattenLength(grid);
    var front := Flatten(grid) + consultas;
    assert |front| == base;
    assert cells == front + examenes;
    assert cells[base..base + ExamenesCols] == examenes;
  }

  /** Decoding a stored fragment gives back exactly the grid and the two
      blocks it was stored from. */
  lemma DecodeEncode(grid: seq<seq<Option<string>>>, consultas: seq<Option<string>>,
                     examenes: seq<Option<string>>)
    requires WellFormed(grid, consultas, examenes)
    ensures DecodeWeekly(Encode(grid, consultas, examenes), |grid|) == grid
    ensures DecodeConsultas(Encode(grid, consultas, examenes), |grid|) == consultas
    ensures DecodeExamenes(Encode(grid, consultas, examenes), |grid|) == examenes
  {
    DecodeEncodeWeekly(grid, consultas, examenes);
    DecodeEncodeConsultas(grid, consultas, examenes);
    DecodeEncodeExamenes(grid, consultas, examenes);
  }

  /** The canonical stored form of any document: its first `CellCount`
      array elements as strings, with non-strings and missing elements as
      "". */
  function Normalize(data: Json, weeks: nat): Json {
    JObject(map["values" := JArray(seq(CellCount(weeks), i requires 0 <= i < CellCount(weeks) =>
      JString(CellText(Slot(ValuesOf(data), i)))))])
  }

  /** The cells read from `values` for `weeks` weeks, flattened back into
      stored order. */
  function ReadCells(values: seq<string>, weeks: nat): seq<Option<string>> {
    Flatten(WeekRows(values, weeks))
      + Slots(values, DaysPerWeek * weeks, ConsultasCols)
      + Slots(values, DaysPerWeek * weeks + ConsultasCols, ExamenesCols)
  }

  lemma ReadWeekCellAt(values: seq<string>, weeks: nat, w: nat, d: nat)
    requires w < weeks && d < DaysPerWeek
    ensures |Flatten(WeekRows(values, weeks))| == DaysPerWeek * weeks
    ensures ReadCells(values, weeks)[DaysPerWeek * w + d] == Slot(values, DaysPerWeek * w + d)
  {
    var grid := WeekRows(values, weeks);
    FlattenIndex(grid);
    assert Flatten(grid)[DaysPerWeek * w + d] == grid[w][d];
  }

  lemma ReadTrailingCellAt(values: seq<string>, weeks: nat, i: int)
    requires DaysPerWeek * weeks <= i < CellCount(weeks)
    ensures |ReadCells(values, weeks)| == CellCount(weeks)
    ensures ReadCells(values, weeks)[i] == Slot(values, i)
  {
    var flat := Flatten(WeekRows(values, weeks));
    FlattenLength(WeekRows(values, weeks));
    var base := DaysPerWeek * weeks;
    var c := Slots(values, base, ConsultasCols);
    var e := Slots(values, base + ConsultasCols, ExamenesCols);
    assert ReadCells(values, weeks) == flat + c + e;
    if i < base + ConsultasCols {
      assert (flat + c + e)[i] == c[i - base];
    } else {
      assert (flat + c + e)[i] == e[i - base - ConsultasCols];
    }
  }

  /** Cell i read back from `values` is stored slot i. */
  lemma ReadCellAt(values: seq<string>, weeks: nat, i: int)
    requires 0 <= i < CellCount(weeks)
    ensures |ReadCells(values, weeks)| == CellCount(weeks)
    ensures ReadCells(values, weeks)[i] == Slot(values, i)
  {
    ReadTrailingCellAt(values, weeks, CellCount(weeks) - 1);
    if i < DaysPerWeek * weeks {
      var w, d := i / DaysPerWeek, i % DaysPerWeek;
      assert i == DaysPerWeek * w + d;
      ReadWeekCellAt(values, weeks, w, d);
    } else {
      ReadTrailingCellAt(values, weeks, i);
    }
  }

  /** Decoding then storing again keeps every cell the export can see and
      loses exactly the rest: elements past the last cell, the difference
      between "" and a non-string, and any other member of the document. */
  lemma EncodeDecode(data: Json, weeks: nat)
    ensures Encode(DecodeWeekly(data, weeks), DecodeConsultas(data, weeks), DecodeExamenes(data, weeks))
      == Normalize(data, weeks)
  {
    var values := ValuesOf(data);
    var cells := ReadCells(values, weeks);
    var lhs := EncodeCells(cells);
    var rhs := seq(CellCount(weeks), i requires 0 <= i < CellCount(weeks) => JString(CellText(Slot(values, i))));
    ReadCellAt(values, weeks, 0);
    assert |lhs| == |rhs|;
    forall i | 0 <= i < CellCount(weeks)
      ensures lhs[i] == rhs[i]
    {
      ReadCellAt(values, weeks, i);
    }
    assert lhs == rhs;
  }

  lemma Slots4(values: seq<string>, start: nat)
    ensures Slots(values, start, 4)
      == [Slot(values, start), Slot(values, start + 1), Slot(values, start + 2), Slot(values, start + 3)]
  {
  }

  /** The eight stored strings of the decoder test, read as two weeks. */
  lemma WeekRowsExample()
    ensures WeekRows(["C", "CP", "", "S", "C", "", "PL", ""], 2)
      == [[Some("C"), Some("CP"), None, Some("S")], [Some("C"), None, Some("PL"), None]]
  {
    var values := ["C", "CP", "", "S", "C", "", "PL", ""];
    var g := WeekRows(values, 2);
    assert g[0] == Slots(values, 0, 4);
    assert g[1] == Slots(values, 4, 4);
    Slots4(values, 0);
    Slots4(values, 4);
  }

  /** The decoder test: two weeks read from an eight-cell array. */
  lemma DecodeExample()
    ensures DecodeWeekly(JObject(map["values" := JArray([JString("C"), JString("CP"), JString(""), JString("S"),
                                                          JString("C"), JString(""), JString("PL"), JString("")])]), 2)
      == [[Some("C"), Some("CP"), None, Some("S")], [Some("C"), None, Some("PL"), None]]
  {
    var data := JObject(map["values" := JArray([JString("C"), JString("CP"), JString(""), JString("S"),
                                                JString("C"), JString(""), JString("PL"), JString("")])]);
    assert ValuesOf(data) == ["C", "CP", "", "S", "C", "", "PL", ""];
    WeekRowsExample();
  }

  /** The empty-document test: every slot is empty. */
  lemma DecodeEmptyExample()
    ensures DecodeWeekly(JObject(map[]), 2) == [[None, None, None, None], [None, None, None, None]]
  {
    var g := DecodeWeekly(JObject(map[]), 2);
    assert g[0] == [None, None, None, None];
    assert g[1] == [None, None, None, None];
  }
}
