/** `Visual.transformData`: the split of a host table into the summary part
    (every row without its detail cell) and the detail part (each row's detail
    cell), with the summary headings chosen by role. */
module Transform {
  import opened HostTypes

  /** What `transformData` gives back: its result, or the one TypeError it
      can throw, reading `index` of an undefined detail column while mapping
      a row. */
  datatype Result<+T> = Ok(value: T) | NoDetailColumn

  /** The object `transformData` returns. */
  datatype Transformed = Transformed(
    headings: seq<Column>,
    summaryRowData: seq<Row>,
    detailRowMeta: Option<Column>,
    detailRowData: seq<Value>)

  /** `columns.filter((c) => c.roles[role])`. */
  function Filter(columns: seq<Column>, role: string): seq<Column> {
    if columns == [] then []
    else if HasRole(columns[0], role) then [columns[0]] + Filter(columns[1..], role)
    else Filter(columns[1..], role)
  }

  /** `columns.filter((c) => c.roles[role])[0]`, where `[0]` of an empty array
      is undefined. */
  function FirstWithRole(columns: seq<Column>, role: string): Option<Column> {
    var matches := Filter(columns, role);
    if |matches| == 0 then None else Some(matches[0])
  }

  /** `row.slice(begin, end)` for non-negative arguments: both ends are clamped
      to the row's length, and a range with end <= begin is empty. */
  function Slice(row: Row, begin: nat, end: nat): (r: Row)
    ensures |r| <= |row|
    ensures begin <= end <= |row| ==> r == row[begin..end]
    ensures begin <= |row| <= end ==> r == row[begin..]
    ensures begin >= |row| || end <= begin ==> r == []
  {
    var b := if begin < |row| then begin else |row|;
    var e := if end < |row| then end else |row|;
    if e <= b then [] else row[b..e]
  }

  /** `[...row.slice(0, k), ...row.slice(k + 1)]`: the row without the cell
      at position k, or the whole row when k is past its end. */
  function RemoveAt(row: Row, k: nat): (r: Row)
    ensures k < |row| ==> r == row[..k] + row[k + 1..] && |r| == |row| - 1
    ensures k >= |row| ==> r == row
    ensures forall j :: 0 <= j < |r| ==> r[j] == row[if j < k then j else j + 1]
  {
    Slice(row, 0, k) + Slice(row, k + 1, |row|)
  }

  /** `row[k]`: undefined past the end of the row. */
  function At(row: Row, k: nat): Value {
    if k < |row| then row[k] else Undefined
  }

  /** `transformData(data)`. The detail column's `index` is dereferenced
      inside the callbacks of `rows.map`, so a missing detail column throws
      only when there is at least one row. */
  function TransformData(data: TableView): (r: Result<Transformed>)
    ensures r.NoDetailColumn? <==> FirstWithRole(data.columns, DETAIL_ROLE).None? && |data.rows| > 0
    ensures r.Ok? ==>
      && r.value.headings == Filter(data.columns, SUMMARY_ROLE)
      && r.value.detailRowMeta == FirstWithRole(data.columns, DETAIL_ROLE)
      && |r.value.summaryRowData| == |data.rows|
      && |r.value.detailRowData| == |data.rows|
    ensures r.Ok? && r.value.detailRowMeta.Some? ==>
      var k := r.value.detailRowMeta.value.index;
      forall i :: 0 <= i < |data.rows| ==>
        && (k < |data.rows[i]| ==>
              && r.value.summaryRowData[i] == data.rows[i][..k] + data.rows[i][k + 1..]
              && r.value.detailRowData[i] == data.rows[i][k])
        && (k >= |data.rows[i]| ==>
              && r.value.summaryRowData[i] == data.rows[i]
              && r.value.detailRowData[i] == Undefined)
  {
    var headings := Filter(data.columns, SUMMARY_ROLE);
    var detailRowMeta := FirstWithRole(data.columns, DETAIL_ROLE);
    if |data.rows| == 0 then
      Ok(Transformed(headings, [], detailRowMeta, []))
    else if detailRowMeta.None? then
      NoDetailColumn
    else
      var k := detailRowMeta.value.index;
      var summaryRowData := seq(|data.rows|, i requires 0 <= i < |data.rows| => RemoveAt(data.rows[i], k));
      var detailRowData := seq(|data.rows|, i requires 0 <= i < |data.rows| => At(data.rows[i], k));
      Ok(Transformed(headings, summaryRowData, detailRowMeta, detailRowData))
  }

  /** The positions in `columns` of the columns that have `role`, ascending. */
  function RolePositions(columns: seq<Column>, role: string): seq<nat> {
    if columns == [] then []
    else
      var n := |columns| - 1;
      RolePositions(columns[..n], role) + if HasRole(columns[n], role) then [n] else []
  }

  /** `Filter` keeps exactly the columns at `RolePositions`, in that order:
      the positions ascend strictly, each holds a column with the role, and
      every column with the role is at one of them. */
  lemma FilterSelectsRolePositions(columns: seq<Column>, role: string)
    ensures var ps := RolePositions(columns, role);
      && |ps| == |Filter(columns, role)|
      && (forall j :: 0 <= j < |ps| ==> ps[j] < |columns| && Filter(columns, role)[j] == columns[ps[j]])
      && (forall j :: 0 <= j < |ps| ==> HasRole(columns[ps[j]], role))
      && (forall j, l :: 0 <= j < l < |ps| ==> ps[j] < ps[l])
      && (forall i :: 0 <= i < |columns| && HasRole(columns[i], role) ==> i in ps)
  {
    FilterAtRolePositions(columns, role);
    RolePositionsAscend(columns, role);
  }

  /** The j-th heading is the column at the j-th role position. */
  lemma {:induction false} FilterAtRolePositions(columns: seq<Column>, role: string)
    ensures var ps := RolePositions(columns, role);
      && |ps| == |Filter(columns, role)|
      && forall j :: 0 <= j < |ps| ==> ps[j] < |columns| && Filter(columns, role)[j] == columns[ps[j]]
  {
    if columns != [] {
      var n := |columns| - 1;
      var init := columns[..n];
      FilterAtRolePositions(init, role);
      assert columns == init + [columns[n]];
      FilterAppend(init, [columns[n]], role);
      FilterUniform([columns[n]], role);
      var rest := RolePositions(init, role);
      assert forall j :: 0 <= j < |rest| ==> columns[rest[j]] == init[rest[j]];
    }
  }

  /** The role positions ascend strictly and are exactly the positions of
      the columns that have the role. */
  lemma {:induction false} RolePositionsAscend(columns: seq<Column>, role: string)
    ensures var ps := RolePositions(columns, role);
      && (forall j :: 0 <= j < |ps| ==> ps[j] < |columns| && HasRole(columns[ps[j]], role))
      && (forall j, l :: 0 <= j < l < |ps| ==> ps[j] < ps[l])
      && (forall i :: 0 <= i < |columns| && HasRole(columns[i], role) ==> i in ps)
  {
    if columns != [] {
      var n := |columns| - 1;
      var init := columns[..n];
      RolePositionsAscend(init, role);
      assert forall i :: 0 <= i < n ==> columns[i] == init[i];
    }
  }

  /** A column is a heading exactly when it is one of the columns and has the
      role; a column occurs among the headings as often as among the columns
      when it has the role, and not at all otherwise. */
  lemma {:induction false} FilterMembers(columns: seq<Column>, role: string)
    ensures forall c :: c in Filter(columns, role) <==> c in columns && HasRole(c, role)
    ensures forall c :: multiset(Filter(columns, role))[c] == if HasRole(c, role) then multiset(columns)[c] else 0
  {
    if columns != [] {
      FilterMembers(columns[1..], role);
      assert columns == [columns[0]] + columns[1..];
    }
  }

  /** Filtering distributes over concatenation: no column moves across another. */
  lemma {:induction false} FilterAppend(a: seq<Column>, b: seq<Column>, role: string)
    ensures Filter(a + b, role) == Filter(a, role) + Filter(b, role)
  {
    if a == [] {
      assert a + b == b;
    } else {
      FilterAppend(a[1..], b, role);
      assert (a + b)[0] == a[0];
      assert (a + b)[1..] == a[1..] + b;
    }
  }

  /** The detail column is the first column with the detail role, and there
      is none exactly when no column has it. */
  lemma {:induction false} FirstWithRoleIsFirstMatch(columns: seq<Column>, role: string)
    ensures FirstWithRole(columns, role).None? <==> forall j :: 0 <= j < |columns| ==> !HasRole(columns[j], role)
    ensures forall k :: 0 <= k < |columns| && HasRole(columns[k], role) &&
                        (forall j :: 0 <= j < k ==> !HasRole(columns[j], role)) ==>
                        FirstWithRole(columns, role) == Some(columns[k])
  {
    if columns != [] {
      FirstWithRoleIsFirstMatch(columns[1..], role);
      if HasRole(columns[0], role) {
        forall k | 0 < k < |columns| && HasRole(columns[k], role)
          ensures exists j :: 0 <= j < k && HasRole(columns[j], role)
        {
          assert HasRole(columns[0], role);
        }
      } else {
        forall k | 0 < k < |columns| && HasRole(columns[k], role) &&
                   (forall j :: 0 <= j < k ==> !HasRole(columns[j], role))
          ensures FirstWithRole(columns, role) == Some(columns[k])
        {
          assert columns[1..][k - 1] == columns[k];
          assert forall j :: 0 <= j < k - 1 ==> columns[1..][j] == columns[j + 1];
        }
        assert forall j :: 1 <= j < |columns| ==> columns[j] == columns[1..][j - 1];
      }
    }
  }

  /** All columns kept when all have the role, none when none has it. */
  lemma {:induction false} FilterUniform(columns: seq<Column>, role: string)
    ensures (forall p :: 0 <= p < |columns| ==> HasRole(columns[p], role)) ==> Filter(columns, role) == columns
    ensures (forall p :: 0 <= p < |columns| ==> !HasRole(columns[p], role)) ==> Filter(columns, role) == []
  {
    if columns != [] {
      FilterUniform(columns[1..], role);
      assert forall p :: 1 <= p < |columns| ==> columns[1..][p - 1] == columns[p];
    }
  }

  /** A table as the host binds it to the visual's two roles: every column
      has exactly one of them, one column has the detail role, each column's
      `index` is its position, and every row has one value per column. */
  predicate BoundByRole(data: TableView) {
    && (forall p :: 0 <= p < |data.columns| ==> data.columns[p].index == p)
    && (forall p :: 0 <= p < |data.columns| ==> HasRole(data.columns[p], SUMMARY_ROLE) != HasRole(data.columns[p], DETAIL_ROLE))
    && (exists p :: 0 <= p < |data.columns| && HasRole(data.columns[p], DETAIL_ROLE))
    && (forall p, p' :: 0 <= p < p' < |data.columns| && HasRole(data.columns[p], DETAIL_ROLE) ==> !HasRole(data.columns[p'], DETAIL_ROLE))
    && (forall i :: 0 <= i < |data.rows| ==> |data.rows[i]| == |data.columns|)
  }

  /** On such a table, every summary row has one cell per heading, and its
      j-th cell is the row's value of the j-th heading's column; the detail
      entry is the row's value of the detail column. */
  lemma CellsUnderHeadings(data: TableView)
    requires BoundByRole(data)
    ensures TransformData(data).Ok?
    ensures var t := TransformData(data).value;
      && t.detailRowMeta.Some? && HasRole(t.detailRowMeta.value, DETAIL_ROLE)
      && forall i :: 0 <= i < |data.rows| ==>
           && |t.summaryRowData[i]| == |t.headings|
           && t.detailRowMeta.value.index < |data.rows[i]|
           && t.detailRowData[i] == data.rows[i][t.detailRowMeta.value.index]
           && forall j :: 0 <= j < |t.headings| ==>
                t.headings[j].index < |data.rows[i]| && t.summaryRowData[i][j] == data.rows[i][t.headings[j].index]
  {
    var cs := data.columns;
    var k :| 0 <= k < |cs| && HasRole(cs[k], DETAIL_ROLE);
    FirstWithRoleIsFirstMatch(cs, DETAIL_ROLE);
    assert FirstWithRole(cs, DETAIL_ROLE) == Some(cs[k]);
    assert forall p :: 0 <= p < |cs| && p != k ==> !HasRole(cs[p], DETAIL_ROLE);
    HeadingsSkipDetail(cs, k);
    var t := TransformData(data).value;
    forall i | 0 <= i < |data.rows|
      ensures |t.summaryRowData[i]| == |t.headings|
      ensures forall j :: 0 <= j < |t.headings| ==>
                t.headings[j].index < |data.rows[i]| && t.summaryRowData[i][j] == data.rows[i][t.headings[j].index]
    {
      RowUnderHeadings(data.rows[i], cs, k);
    }
  }

  /** One row of such a table: removing the detail cell leaves one cell per
      other column, each under its own column. */
  lemma RowUnderHeadings(row: Row, cs: seq<Column>, k: nat)
    requires k < |cs| == |row|
    requires forall p :: 0 <= p < |cs| ==> cs[p].index == p
    ensures var headings := cs[..k] + cs[k + 1..];
      && |RemoveAt(row, k)| == |headings|
      && forall j :: 0 <= j < |headings| ==>
           headings[j].index < |row| && RemoveAt(row, k)[j] == row[headings[j].index]
  {
    var headings := cs[..k] + cs[k + 1..];
    assert forall j :: 0 <= j < |headings| ==> headings[j] == cs[if j < k then j else j + 1];
  }

  /** With exactly one of the two roles per column and a single detail
      column at position k, the headings are all the other columns, in order. */
  lemma HeadingsSkipDetail(cs: seq<Column>, k: nat)
    requires k < |cs| && HasRole(cs[k], DETAIL_ROLE)
    requires forall p :: 0 <= p < |cs| ==> HasRole(cs[p], SUMMARY_ROLE) != HasRole(cs[p], DETAIL_ROLE)
    requires forall p :: 0 <= p < |cs| && p != k ==> !HasRole(cs[p], DETAIL_ROLE)
    ensures Filter(cs, SUMMARY_ROLE) == cs[..k] + cs[k + 1..]
  {
    var before, after := cs[..k], cs[k + 1..];
    assert forall p :: 0 <= p < |before| ==> before[p] == cs[p];
    assert forall p :: 0 <= p < |after| ==> after[p] == cs[k + 1 + p];
    assert cs == before + [cs[k]] + after;
    FilterSkipsOne(before, cs[k], after, SUMMARY_ROLE);
  }

  /** Filtering removes a single column without the role from among columns that have it. */
  lemma FilterSkipsOne(before: seq<Column>, c: Column, after: seq<Column>, role: string)
    requires forall p :: 0 <= p < |before| ==> HasRole(before[p], role)
    requires forall p :: 0 <= p < |after| ==> HasRole(after[p], role)
    requires !HasRole(c, role)
    ensures Filter(before + [c] + after, role) == before + after
  {
    FilterUniform(before, role);
    FilterUniform(after, role);
    assert Filter([c], role) == [];
    FilterAppend(before, [c], role);
    assert Filter(before + [c], role) == before;
    FilterAppend(before + [c], after, role);
  }
}
