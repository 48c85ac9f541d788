/** The synchronous parts of the frontend's balance store: the activity
    tally behind the per-fragment totals, the subject selection of a
    balance being created, the guard in front of its creation, and the
    edit of one cell of the fragment being filled in.

    The store's state is reduced to what these actions read and write.
    Requests to the backend, loading flags and the coefficient column are
    not modelled. */
module BalanceStore {
  import opened Wrappers
  import opened Text
  import opened JsValues
  import opened Activity
  import BalanceTable

  // ---------------------------------------------------------------------
  // Tally
  // ---------------------------------------------------------------------

  /** A cell that holds one of the eight activity codes (`typeof val ===
      'string' && VALID_ACTIVITY_TYPES.has(val)`). */
  predicate IsActivityCell(v: JsValue) {
    v.Str? && ParseActivity(v.s).Some?
  }

  /** How many cells hold the code of `a`. */
  function CountOf(values: seq<JsValue>, a: ActivityType): nat {
    if |values| == 0 then 0
    else CountOf(values[..|values| - 1], a) + (if values[|values| - 1] == Str(Code(a)) then 1 else 0)
  }

  /** How many cells hold any activity code. */
  function Recognised(values: seq<JsValue>): nat {
    if |values| == 0 then 0
    else Recognised(values[..|values| - 1]) + (if IsActivityCell(values[|values| - 1]) then 1 else 0)
  }

  /** Per-activity counts, one entry per activity. */
  type Counts = map<ActivityType, nat>

  predicate Complete(m: Counts) {
    forall a: ActivityType :: a in m
  }

  /** `{ C: 0, CP: 0, S: 0, PL: 0, TE: 0, T: 0, PP: 0, EC: 0 }`. */
  const ZeroCounts: Counts := map[C := 0, CP := 0, S := 0, PL := 0, TE := 0, T := 0, PP := 0, EC := 0]

  lemma ZeroCountsComplete()
    ensures Complete(ZeroCounts)
  {
    forall a: ActivityType
      ensures a in ZeroCounts
    {
      match a
      case C => case CP => case S => case PL => case TE => case T => case PP => case EC =>
    }
  }

  /** The sum of all counts. */
  function Sum(m: Counts): nat
    requires Complete(m)
  {
    m[C] + m[CP] + m[S] + m[PL] + m[TE] + m[T] + m[PP] + m[EC]
  }

  /** A cell holds the code of `a` exactly when it parses as `a`. */
  lemma CellIsCode(v: JsValue, a: ActivityType)
    ensures v == Str(Code(a)) <==> v.Str? && ParseActivity(v.s) == Some(a)
  {
    CodeRoundTrip(a);
  }

  /** The loop of `calculateAllFragments` over one fragment's cells: every
      count is the number of cells holding that code, and the total is the
      number of cells holding any code. */
  method TallyValues(values: seq<JsValue>) returns (counts: Counts, total: nat)
    ensures Complete(counts)
    ensures forall a :: counts[a] == CountOf(values, a)
    ensures total == Recognised(values)
    ensures total == Sum(counts)
  {
    counts := ZeroCounts;
    total := 0;
    ZeroCountsComplete();
    for i := 0 to |values|
      invariant Complete(counts)
      invariant forall a :: counts[a] == CountOf(values[..i], a)
      invariant total == Recognised(values[..i])
    {
      assert values[..i + 1][..i] == values[..i];
      var v := values[i];
      forall a | true
        ensures v == Str(Code(a)) <==> v.Str? && ParseActivity(v.s) == Some(a)
      {
        CellIsCode(v, a);
      }
      if v.Str? {
        var p := ParseActivity(v.s);
        if p.Some? {
          counts := counts[p.value := counts[p.value] + 1];
          total := total + 1;
        }
      }
    }
    assert values[..|values|] == values;
    TotalIsSumOfCounts(values);
  }

  /** The total is the sum of the eight counts: no cell is counted twice
      and none is left out of the total. */
  lemma {:induction false} TotalIsSumOfCounts(values: seq<JsValue>)
    ensures Recognised(values)
         == CountOf(values, C) + CountOf(values, CP) + CountOf(values, S) + CountOf(values, PL)
          + CountOf(values, TE) + CountOf(values, T) + CountOf(values, PP) + CountOf(values, EC)
    ensures Recognised(values) <= |values|
  {
    if |values| > 0 {
      var v := values[|values| - 1];
      TotalIsSumOfCounts(values[..|values| - 1]);
      if v.Str? {
        var p := ParseActivity(v.s);
        if p.Some? {
          CellIsCode(v, p.value);
        }
      }
    }
  }

  // ---------------------------------------------------------------------
  // Per-fragment totals
  // ---------------------------------------------------------------------

  /** A fragment of the current balance: its id, its subject's name when
      the subject is loaded, its status and its free-form data. */
  datatype Fragment = Fragment(id: int, asignaturaName: Option<string>, status: string, data: Option<map<string, JsValue>>)

  /** One row of `calculations` (without the coefficient). */
  datatype FragmentCalc = FragmentCalc(fragmentId: int, asignaturaName: string, status: string, total: nat, counts: Counts)

  /** The name a row shows: `fragment.asignatura?.name || 'Asignatura'`. */
  function DisplayName(name: Option<string>): (r: string)
    ensures r != ""
    ensures name.Some? && name.value != "" ==> r == name.value
  {
    if name.Some? && name.value != "" then name.value else "Asignatura"
  }

  /** `data?.values`, `undefined` when missing. */
  function ValuesField(data: Option<map<string, JsValue>>): JsValue {
    if data.Some? && "values" in data.value then data.value["values"] else Undefined
  }

  /** The error a `for…of` over a number or a boolean throws. */
  const NotIterable := "TypeError: values is not iterable"

  /** The cells `for (const val of (values as string[]) || [])` visits: none
      for a falsy value, an array's elements, a string's characters one by
      one; any other value throws. */
  function Cells(v: JsValue): (r: Result<seq<JsValue>, string>)
    ensures r.Failure? <==> Truthy(v) && (v.Number? || v.Bool?)
    ensures r.Success? && !v.Arr? ==> forall k :: 0 <= k < |r.value| ==> r.value[k].Str? && |r.value[k].s| == 1
  {
    if !Truthy(v) then Success([])
    else match v
      case Arr(e) => Success(e)
      case Str(s) => Success(CharCells(s))
      case _ => Failure(NotIterable)
  }

  /** A string's characters, each as a string of its own. */
  function CharCells(s: string): (r: seq<JsValue>)
    ensures |r| == |s|
    ensures forall k :: 0 <= k < |s| ==> r[k] == Str([s[k]])
  {
    if s == "" then [] else [Str([s[0]])] + CharCells(s[1..])
  }

  /** A string's characters are cells of one character each, so only the
      single-letter codes C, S and T can be tallied from it. */
  lemma StringCellsAreShort(s: string, a: ActivityType)
    requires s != ""
    requires a == CP || a == PL || a == TE || a == PP || a == EC
    ensures CountOf(Cells(Str(s)).value, a) == 0
  {
    var cells := Cells(Str(s)).value;
    CountOfZero(cells, a);
  }

  /** No cell holds a code of two letters when every cell is one letter. */
  lemma {:induction false} CountOfZero(cells: seq<JsValue>, a: ActivityType)
    requires |Code(a)| == 2
    requires forall k :: 0 <= k < |cells| ==> cells[k].Str? && |cells[k].s| == 1
    ensures CountOf(cells, a) == 0
  {
    if |cells| > 0 {
      CountOfZero(cells[..|cells| - 1], a);
    }
  }

  /** One fragment's row. */
  method CalculateFragment(f: Fragment) returns (r: Result<FragmentCalc, string>)
    ensures r.Failure? <==> Cells(ValuesField(f.data)).Failure?
    ensures r.Success? ==> RowOf(f, r.value)
  {
    var cells := Cells(ValuesField(f.data));
    if cells.Failure? {
      return Failure(cells.error);
    }
    var counts, total := TallyValues(cells.value);
    return Success(FragmentCalc(f.id, DisplayName(f.asignaturaName), f.status, total, counts));
  }

  /** `row` is the row `calculateAllFragments` computes for `f`. */
  predicate RowOf(f: Fragment, row: FragmentCalc) {
    var cells := Cells(ValuesField(f.data));
    && cells.Success?
    && row.fragmentId == f.id
    && row.asignaturaName == DisplayName(f.asignaturaName)
    && row.status == f.status
    && row.total == Recognised(cells.value)
    && Complete(row.counts)
    && forall a :: row.counts[a] == CountOf(cells.value, a)
  }

  // ---------------------------------------------------------------------
  // Store
  // ---------------------------------------------------------------------

  /** The state the modelled actions touch: the subjects selected for the
      balance being created (`editableBalance`), the fragments of the
      balance on screen (`currentBalance`), the data of the fragment being
      filled in (`currentFragment`), the computed rows and the dirty flag. */
  datatype Store = Store(
    editable: Option<seq<int>>,
    balance: Option<seq<Fragment>>,
    fragment: Option<map<string, JsValue>>,
    calculations: seq<FragmentCalc>,
    isDirty: bool)

  /** `calculateAllFragments`: one row per fragment, in order; nothing
      happens without a balance, and a fragment whose values cannot be
      iterated makes the whole action throw. */
  method CalculateAllFragments(st: Store) returns (r: Result<Store, string>)
    ensures st.balance.None? ==> r == Success(st)
    ensures st.balance.Some? ==>
      (r.Failure? <==> exists k :: 0 <= k < |st.balance.value| && Cells(ValuesField(st.balance.value[k].data)).Failure?)
    ensures r.Success? ==> r.value == st.(calculations := r.value.calculations)
    ensures r.Success? && st.balance.Some? ==>
      && |r.value.calculations| == |st.balance.value|
      && forall k :: 0 <= k < |st.balance.value| ==> RowOf(st.balance.value[k], r.value.calculations[k])
  {
    if st.balance.None? {
      return Success(st);
    }
    var fragments := st.balance.value;
    var rows: seq<FragmentCalc> := [];
    for i := 0 to |fragments|
      invariant |rows| == i
      invariant forall k :: 0 <= k < i ==> Cells(ValuesField(fragments[k].data)).Success?
      invariant forall k :: 0 <= k < i ==> RowOf(fragments[k], rows[k])
    {
      var row := CalculateFragment(fragments[i]);
      if row.Failure? {
        return Failure(row.error);
      }
      rows := rows + [row.value];
    }
    return Success(st.(calculations := rows));
  }

  // ---------------------------------------------------------------------
  // Subject selection
  // ---------------------------------------------------------------------

  /** `s` without the element at `i` (`splice(i, 1)`). */
  function RemoveAt<T>(s: seq<T>, i: nat): (r: seq<T>)
    requires i < |s|
    ensures |r| == |s| - 1
    ensures forall j :: 0 <= j < i ==> r[j] == s[j]
    ensures forall j :: i <= j < |r| ==> r[j] == s[j + 1]
  {
    s[..i] + s[i + 1..]
  }

  predicate NoDuplicates<T(==)>(s: seq<T>) {
    forall i, j :: 0 <= i < j < |s| ==> s[i] != s[j]
  }

  /** `toggleAsignatura`: takes the first occurrence of `id` out of the
      selection, or appends `id` when it is not there; marks the store
      dirty. Without a balance being created it does nothing. */
  function ToggleAsignatura(st: Store, id: int): (r: Store)
    ensures st.editable.None? ==> r == st
    ensures st.editable.Some? ==> r == st.(editable := r.editable, isDirty := true) && r.editable.Some?
    ensures st.editable.Some? && id !in st.editable.value ==> r.editable.value == st.editable.value + [id]
    ensures st.editable.Some? && id in st.editable.value ==>
      |r.editable.value| == |st.editable.value| - 1 && multiset(r.editable.value)[id] == multiset(st.editable.value)[id] - 1
    ensures st.editable.Some? && id in st.editable.value ==>
      var sel := st.editable.value;
      exists k :: 0 <= k < |sel| && sel[k] == id && id !in sel[..k] && r.editable.value == sel[..k] + sel[k + 1..]
  {
    if st.editable.None? then st
    else
      var sel := st.editable.value;
      var idx := IndexOf(sel, id);
      var sel' := if idx < |sel| then RemoveAt(sel, idx) else sel + [id];
      if idx < |sel| then
        assert sel == sel[..idx] + [id] + sel[idx + 1..];
        assert sel' == sel[..idx] + sel[idx + 1..];
        assert id !in sel[..idx];
        st.(editable := Some(sel'), isDirty := true)
      else
        st.(editable := Some(sel'), isDirty := true)
  }

  /** On a selection without duplicates, toggling flips `id`'s membership,
      leaves every other subject where it was selected or not, and keeps
      the selection free of duplicates. */
  lemma ToggleFlips(st: Store, id: int)
    requires st.editable.Some? && NoDuplicates(st.editable.value)
    ensures NoDuplicates(ToggleAsignatura(st, id).editable.value)
    ensures id in ToggleAsignatura(st, id).editable.value <==> id !in st.editable.value
    ensures forall x :: x != id ==> (x in ToggleAsignatura(st, id).editable.value <==> x in st.editable.value)
  {
    var sel := st.editable.value;
    var idx := IndexOf(sel, id);
    if idx < |sel| {
      RemoveAtFlips(sel, idx);
    } else {
      AppendFlips(sel, id);
    }
  }

  /** Removing an element from a duplicate-free sequence removes exactly
      that value. */
  lemma RemoveAtFlips<T>(s: seq<T>, i: nat)
    requires i < |s| && NoDuplicates(s)
    ensures NoDuplicates(RemoveAt(s, i))
    ensures s[i] !in RemoveAt(s, i)
    ensures forall x :: x != s[i] ==> (x in RemoveAt(s, i) <==> x in s)
  {
    var r := RemoveAt(s, i);
    assert s == s[..i] + [s[i]] + s[i + 1..];
    assert r == s[..i] + s[i + 1..];
    forall j | 0 <= j < |r|
      ensures r[j] != s[i]
    {
      if j < i {
        assert r[j] == s[j];
      } else {
        assert r[j] == s[j + 1];
      }
    }
  }

  /** Appending a value not yet present keeps a sequence duplicate-free. */
  lemma AppendFlips<T>(s: seq<T>, x: T)
    requires x !in s && NoDuplicates(s)
    ensures NoDuplicates(s + [x])
  {
  }

  /** Toggling a subject in and out again restores the selection. */
  lemma ToggleTwice(st: Store, id: int)
    requires st.editable.Some? && id !in st.editable.value
    ensures ToggleAsignatura(ToggleAsignatura(st, id), id) == st.(isDirty := true)
  {
    var sel := st.editable.value;
    var once := ToggleAsignatura(st, id);
    assert once.editable.value == sel + [id];
    var twice := sel + [id];
    assert forall j :: 0 <= j < |sel| ==> twice[j] == sel[j] && sel[j] != id;
    assert twice[|sel|] == id;
    assert IndexOf(twice, id) == |sel|;
    assert RemoveAt(sel + [id], |sel|) == sel;
  }

  /** The checks `createBalance` makes before its request: a balance must
      be in creation and at least one subject selected. On success, the
      request's subjects are the selection, in order. */
  function CreateBalanceRequest(st: Store): (r: Result<seq<int>, string>)
    ensures r.Success? <==> st.editable.Some? && |st.editable.value| > 0
    ensures r.Success? ==> r.value == st.editable.value
    ensures st.editable.None? ==> r == Failure("No hay balance para crear")
    ensures st.editable.Some? && st.editable.value == [] ==> r == Failure("Debe seleccionar al menos una asignatura")
  {
    if st.editable.None? then Failure("No hay balance para crear")
    else if |st.editable.value| == 0 then Failure("Debe seleccionar al menos una asignatura")
    else Success(st.editable.value)
  }

  /** Selecting one subject is enough to create a balance. */
  lemma ToggleEnablesCreate(st: Store, id: int)
    requires st.editable == Some([])
    ensures CreateBalanceRequest(ToggleAsignatura(st, id)) == Success([id])
  {
    assert [] + [id] == [id];
  }

  // ---------------------------------------------------------------------
  // Cell edits
  // ---------------------------------------------------------------------

  /** `values[i] = v` on a JavaScript array: inside the array the element
      is replaced; past its end the array grows, the gap reading as
      `undefined`. */
  function SetAt(a: seq<JsValue>, i: nat, v: JsValue): (r: seq<JsValue>)
    ensures |r| == if i < |a| then |a| else i + 1
    ensures r[i] == v
    ensures forall j :: 0 <= j < |a| && j != i ==> r[j] == a[j]
    ensures forall j :: |a| <= j < i ==> r[j] == Undefined
  {
    if i < |a| then a[i := v] else a + seq(i - |a|, _ => Undefined) + [v]
  }

  /** The array `updateFragmentCell` writes into: the stored `values` when
      it is an array, a fresh one when it is falsy. Assigning an index of
      a number, a boolean or a string throws in strict mode. */
  function EditableCells(v: JsValue): (r: Result<seq<JsValue>, string>)
    ensures r.Success? <==> v.Arr? || !Truthy(v)
    ensures v.Arr? ==> r == Success(v.elems)
  {
    if v.Arr? then Success(v.elems)
    else if !Truthy(v) then Success([])
    else Failure("TypeError: cannot assign to an index of a primitive")
  }

  /** `updateFragmentCell`: stores `value` at `cellIndex` of the current
      fragment's `values` and marks the store dirty. Without a fragment it
      does nothing. A negative index names a property, not an element, so
      the cells are left as they are. */
  function UpdateFragmentCell(st: Store, cellIndex: int, value: string): (r: Result<Store, string>)
    ensures st.fragment.None? ==> r == Success(st)
    ensures st.fragment.Some? ==>
      (r.Success? <==> EditableCells(ValuesField(st.fragment)).Success?)
    ensures st.fragment.Some? && r.Success? ==>
      && r.value == st.(fragment := r.value.fragment, isDirty := true)
      && r.value.fragment.Some?
      && "values" in r.value.fragment.value
      && r.value.fragment.value["values"].Arr?
      && forall key :: key != "values" ==>
           (key in r.value.fragment.value <==> key in st.fragment.value)
           && (key in st.fragment.value ==> r.value.fragment.value[key] == st.fragment.value[key])
    // The cells: `value` at `cellIndex`, holes up to it left undefined,
    // every other cell as it was; a negative index changes no cell.
    ensures st.fragment.Some? && r.Success? ==>
      var cells := EditableCells(ValuesField(st.fragment)).value;
      var cells' := r.value.fragment.value["values"].elems;
      && (cellIndex < 0 ==> cells' == cells)
      && (cellIndex >= 0 ==>
            && |cells'| == (if cellIndex < |cells| then |cells| else cellIndex + 1)
            && cells'[cellIndex] == Str(value)
            && (forall j :: 0 <= j < |cells| && j != cellIndex ==> cells'[j] == cells[j])
            && (forall j :: |cells| <= j < cellIndex ==> cells'[j] == Undefined))
  {
    if st.fragment.None? then Success(st)
    else
      var data := st.fragment.value;
      match EditableCells(ValuesField(st.fragment))
      case Failure(e) => Failure(e)
      case Success(cells) =>
        var cells' := if cellIndex < 0 then cells else SetAt(cells, cellIndex, Str(value));
        Success(st.(fragment := Some(data["values" := Arr(cells')]), isDirty := true))
  }

  /** After an edit, the cell shows the new value (in the table's terms)
      and every other cell shows what it showed before. */
  lemma UpdateThenRead(st: Store, cellIndex: nat, value: string)
    requires st.fragment.Some? && UpdateFragmentCell(st, cellIndex, value).Success?
    ensures var before := EditableCells(ValuesField(st.fragment)).value;
            var after := ValuesField(UpdateFragmentCell(st, cellIndex, value).value.fragment).elems;
            && cellIndex < |after|
            && BalanceTable.GetCellValue(after[cellIndex]) == value
            && forall j :: 0 <= j < |after| && j != cellIndex ==>
                 BalanceTable.GetCellValue(after[j]) == (if j < |before| then BalanceTable.GetCellValue(before[j]) else "")
  {
  }

  /** Editing a cell keeps its tallies consistent: the stored array is
      still iterable, so the per-fragment totals can be computed. */
  lemma UpdateKeepsIterable(st: Store, cellIndex: int, value: string)
    requires st.fragment.Some? && UpdateFragmentCell(st, cellIndex, value).Success?
    ensures Cells(ValuesField(UpdateFragmentCell(st, cellIndex, value).value.fragment)).Success?
  {
  }
}
