/** JavaScript values as the frontend meets them in a fragment's `data`. */
module JsValues {

  /** A JavaScript value. Numbers are integers here: only whether a value
      is a number matters to the code modelled. */
  datatype JsValue =
    | Undefined
    | Null
    | Number(n: int)
    | Bool(b: bool)
    | Str(s: string)
    | Arr(elems: seq<JsValue>)

  /** JavaScript truthiness. */
  predicate Truthy(v: JsValue) {
    match v
    case Undefined => false
    case Null => false
    case Number(n) => n != 0
    case Bool(b) => b
    case Str(s) => s != ""
    case Arr(_) => true
  }
}

/** The table helpers shared by the balance tables: cell normalisation and
    the grouping of weeks into column groups. */
module BalanceTable {
  import opened JsValues

  /** `getCellValue`: the string a cell shows. Legacy numeric values,
      `undefined`, `null` and `''` show as empty. */
  function GetCellValue(v: JsValue): (r: string)
    ensures r != "" <==> v.Str? && v.s != ""
    ensures v.Str? ==> r == v.s
  {
    if v == Undefined || v == Null || v == Number(0) || v == Str("") then ""
    else if v.Number? then ""
    else if v.Str? then v.s
    else ""
  }

  /** A shown value shows as itself: normalising is idempotent, and every
      string survives. */
  lemma GetCellValueIdempotent(v: JsValue)
    ensures GetCellValue(Str(GetCellValue(v))) == GetCellValue(v)
  {
  }

  // ---------------------------------------------------------------------
  // Week groups
  // ---------------------------------------------------------------------

  /** `WeekGroup`: weeks `start..end` (1-based, inclusive), and the flat
      cell index of the group's first week. */
  datatype WeekGroup = WeekGroup(start: int, end: int, weeks: seq<int>, startIndex: int)

  /** Cells per week in the tables: L, M, X, J. */
  const CellsPerWeek := 4

  /** The integers `a..b`, inclusive, in order. */
  function Range(a: int, b: int): (r: seq<int>)
    ensures |r| == if a <= b then b - a + 1 else 0
    ensures forall j :: 0 <= j < |r| ==> r[j] == a + j
  {
    if a > b then [] else seq(b - a + 1, j => a + j)
  }

  function Min(a: int, b: int): int {
    if a <= b then a else b
  }

  /** The group whose first week has 0-based offset `i`. */
  function GroupAt(i: int, total: int, size: int): WeekGroup {
    WeekGroup(i + 1, Min(i + size, total), Range(i + 1, Min(i + size, total)), i * CellsPerWeek)
  }

  /** All groups' weeks, concatenated. */
  function AllWeeks(groups: seq<WeekGroup>): seq<int> {
    if |groups| == 0 then [] else AllWeeks(groups[..|groups| - 1]) + groups[|groups| - 1].weeks
  }

  /** Two adjacent ranges make one. */
  lemma RangeAppend(a: int, m: int, b: int)
    requires a <= m + 1 && m <= b
    ensures Range(a, m) + Range(m + 1, b) == Range(a, b)
  {
    var l, r := Range(a, m), Range(m + 1, b);
    assert forall j :: 0 <= j < |l + r| ==> (l + r)[j] == a + j by {
      forall j | 0 <= j < |l + r|
        ensures (l + r)[j] == a + j
      {
        if j >= |l| {
          assert (l + r)[j] == r[j - |l|];
        }
      }
    }
  }

  lemma AllWeeksSnoc(groups: seq<WeekGroup>, g: WeekGroup)
    ensures AllWeeks(groups + [g]) == AllWeeks(groups) + g.weeks
  {
    assert (groups + [g])[..|groups|] == groups;
  }

  /** The weeks `start..end`, one by one. */
  method Weeks(start: int, end: int) returns (weeks: seq<int>)
    ensures weeks == Range(start, end)
  {
    weeks := [];
    var w := start;
    while w <= end
      invariant w == start || start <= w <= end + 1
      invariant weeks == Range(start, w - 1)
      decreases end - w
    {
      weeks := weeks + [w];
      w := w + 1;
    }
    if start > end {
      assert Range(start, end) == [];
    }
  }

  /** The loop's invariant: `groups` holds the groups of the first `i`
      weeks. */
  predicate GroupsUpTo(groups: seq<WeekGroup>, i: int, total: int, size: int) {
    && 0 <= i && i == |groups| * size
    && (|groups| > 0 ==> i - size < total)
    && (forall k :: 0 <= k < |groups| ==> groups[k] == GroupAt(k * size, total, size))
    && AllWeeks(groups) == Range(1, Min(i, total))
  }

  lemma MulSucc(n: int, size: int)
    ensures (n + 1) * size == n * size + size
  {
  }

  /** One more group keeps the invariant. */
  lemma GroupsStep(groups: seq<WeekGroup>, i: int, total: int, size: int)
    requires size > 0 && i < total && GroupsUpTo(groups, i, total, size)
    ensures GroupsUpTo(groups + [GroupAt(i, total, size)], i + size, total, size)
  {
    var g := GroupAt(i, total, size);
    var next := groups + [g];
    AllWeeksSnoc(groups, g);
    RangeAppend(1, i, Min(i + size, total));
    var n := |groups|;
    assert |next| == n + 1;
    MulSucc(n, size);
    forall k | 0 <= k < |next|
      ensures next[k] == GroupAt(k * size, total, size)
    {
      if k == |groups| {
        assert k * size == i;
      }
    }
  }

  /** `generateWeekGroups`: groups of `size` weeks, the last one possibly
      shorter. The count is the least `k` with `k * size >= total`, that
      is, the ceiling of `total / size`, and none for `total <= 0`. */
  method GenerateWeekGroups(total: int, size: int) returns (groups: seq<WeekGroup>)
    requires size > 0
    ensures total <= 0 ==> |groups| == 0
    ensures total > 0 ==> |groups| * size >= total && (|groups| - 1) * size < total
    ensures forall k :: 0 <= k < |groups| ==> groups[k] == GroupAt(k * size, total, size)
    ensures forall k :: 0 <= k < |groups| ==> groups[k].startIndex == CellsPerWeek * (groups[k].start - 1)
    ensures AllWeeks(groups) == Range(1, total)
  {
    groups := [];
    var i := 0;
    while i < total
      invariant GroupsUpTo(groups, i, total, size)
      decreases total - i
    {
      var start := i + 1;
      var end := Min(i + size, total);
      var weeks := Weeks(start, end);
      var g := WeekGroup(start, end, weeks, i * 4);
      assert g == GroupAt(i, total, size);
      GroupsStep(groups, i, total, size);
      groups := groups + [g];
      i := i + size;
    }
    if total > 0 {
      assert Min(i, total) == total;
    }
  }

  /** Weeks 1..10 in groups of 4: 1-4, 5-8 and 9-10. */
  method WeekGroupsExample() returns (groups: seq<WeekGroup>)
    ensures |groups| == 3
    ensures groups[2].start == 9 && groups[2].end == 10 && groups[2].startIndex == 32
  {
    groups := GenerateWeekGroups(10, 4);
    assert |groups| == 3;
    assert groups[2] == GroupAt(8, 10, 4);
  }
}
