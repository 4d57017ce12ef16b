/** The visual object: the `<table>` element it owns, redrawn by `update` and
    changed by `toggleRow` when a summary row is clicked. */
module VisualComponent {
  import opened HostTypes
  import opened Transform
  import opened Layout

  /** The TypeErrors `update` lets through to the host. */
  datatype Fault =
    | NoDataView                 // `options.dataViews[0]` is undefined
    | DetailColumnUndefined      // `transformData` read `index` of an undefined detail column
    | UnprintableCell(row: nat)  // a summary cell of that row is null or undefined

  /** How a call to `update` ends: the table redrawn, an early return because
      the host sent no table view, or a TypeError propagated to the host. */
  datatype Outcome = Rendered | NoTableView | Threw(fault: Fault)

  /** How a click on the summary row with a given id ends: nothing happens
      when that row has no click handler (its detail value is falsy); a
      ReferenceError when the `update` call that installed the handler threw
      before its `toggleRow` constant was initialised; a TypeError when
      `getElementById` returns null; otherwise the detail row's hide-row
      class is flipped. */
  datatype Click = NoHandler | ToggleRowUninitialised | NoSuchElement | Flipped

  /** The labels of the header cells, one per heading in heading order
      (`headings.forEach`). */
  method HeaderCells(headings: seq<Column>) returns (names: seq<string>)
    ensures |names| == |headings|
    ensures forall j :: 0 <= j < |headings| ==> names[j] == headings[j].displayName
  {
    names := [];
    var j := 0;
    while j < |headings|
      invariant 0 <= j <= |headings|
      invariant |names| == j
      invariant forall l :: 0 <= l < j ==> names[l] == headings[l].displayName
    {
      names := names + [headings[j].displayName];
      j := j + 1;
    }
  }

  /** The cells of one summary row, built left to right (`row.forEach`);
      `printed` is false when `toString` throws on one of them, and `cells`
      is then the prefix built before it, which `Draw` throws away. */
  method SummaryCells(row: Row) returns (cells: seq<Value>, printed: bool)
    ensures printed <==> AllPrintable(row)
    ensures printed ==> cells == row
    ensures !printed ==>
      && |cells| < |row| && cells == row[..|cells|]
      && AllPrintable(cells) && !Printable(row[|cells|])
  {
    cells := [];
    var c := 0;
    while c < |row|
      invariant 0 <= c <= |row|
      invariant cells == row[..c]
      invariant forall l :: 0 <= l < c ==> Printable(row[l])
    {
      if !Printable(row[c]) {
        return cells, false;
      }
      cells := cells + [row[c]];
      c := c + 1;
    }
    printed := true;
  }

  class Visual {
    /** The children of the `<table>` element, in document order. */
    var table: seq<Node>

    /** Whether the `update` call that drew the current rows reached the
        declaration of its `toggleRow` constant, which the rows' click
        handlers call. */
    var toggleRowDefined: bool

    /** The constructor creates an empty `<table>` inside the host element. */
    constructor ()
      ensures table == [] && !toggleRowDefined
    {
      table := [];
      toggleRowDefined := false;
    }

    /** `update(options)`, with `options.dataViews` as `dataViews`. */
    method Update(dataViews: seq<DataView>) returns (outcome: Outcome)
      modifies this
      ensures |dataViews| == 0 ==>
        outcome == Threw(NoDataView) && table == old(table) && toggleRowDefined == old(toggleRowDefined)
      ensures |dataViews| > 0 && dataViews[0].table.None? ==>
        outcome == NoTableView && table == old(table) && toggleRowDefined == old(toggleRowDefined)
      ensures |dataViews| > 0 && dataViews[0].table.Some? ==> (toggleRowDefined <==> outcome == Rendered)
      ensures |dataViews| > 0 && dataViews[0].table.Some? ==>
        match TransformData(dataViews[0].table.value)
        case NoDetailColumn => outcome == Threw(DetailColumnUndefined) && table == []
        case Ok(t) =>
          Aligned(t) &&
          match FirstUnprintableRow(t.summaryRowData)
          case None => outcome == Rendered && table == Drawn(t, |t.summaryRowData|)
          case Some(i) => outcome == Threw(UnprintableCell(i)) && i < |t.summaryRowData| && table == Drawn(t, i)
    {
      if |dataViews| == 0 {
        return Threw(NoDataView);
      }
      var tableDataView := dataViews[0].table;
      if tableDataView.None? {
        return NoTableView;
      }

      // remove every child, first child first
      while table != []
        decreases |table|
      {
        table := table[1..];
      }
      // the click handlers now on the table will be this call's
      toggleRowDefined := false;

      var transformed := TransformData(tableDataView.value);
      if transformed.NoDetailColumn? {
        return Threw(DetailColumnUndefined);
      }
      outcome := Draw(transformed.value);
    }

    /** The drawing part of `update`, on the emptied table: the header, then
        every row in order, stopping at the first row `toString` throws on.
        Only a drawing that finishes goes on to initialise `toggleRow`. */
    method Draw(t: Transformed) returns (outcome: Outcome)
      requires Aligned(t) && table == [] && !toggleRowDefined
      modifies this
      ensures toggleRowDefined <==> outcome == Rendered
      ensures match FirstUnprintableRow(t.summaryRowData)
        case None => outcome == Rendered && table == Drawn(t, |t.summaryRowData|)
        case Some(i) => outcome == Threw(UnprintableCell(i)) && i < |t.summaryRowData| && table == Drawn(t, i)
    {
      var names := HeaderCells(t.headings);
      assert names == HeadingNames(t.headings);
      table := table + [Header(names)];

      // draw the rows: a summary row each, and a hidden detail row after it
      // when the row's detail value is truthy
      var i := 0;
      while i < |t.summaryRowData|
        invariant 0 <= i <= |t.summaryRowData|
        invariant table == Drawn(t, i) && !toggleRowDefined
        invariant forall l :: 0 <= l < i ==> AllPrintable(t.summaryRowData[l])
      {
        var row := t.summaryRowData[i];
        var cells, printed := SummaryCells(row);
        if !printed {
          // `toString` throws before the summary row is appended
          return Threw(UnprintableCell(i));
        }
        assert Drawn(t, i + 1) == Drawn(t, i) + RowNodes(i, row, t.detailRowData[i], |t.headings|);
        var detail := t.detailRowData[i];
        table := table + [Summary(i, cells, Truthy(detail))];
        if Truthy(detail) {
          table := table + [Detail(i, |t.headings|, detail, true)];
        }
        i := i + 1;
      }
      toggleRowDefined := true;
      outcome := Rendered;
    }

    /** A click on the summary row with that id. Without a click handler it
        does nothing. Otherwise the handler calls `toggleRow(id)`, which flips
        the hide-row class of the element `getElementById(id)` returns. With
        no such element the call throws a TypeError, and before `toggleRow`
        is initialised the handler throws a ReferenceError; either way
        nothing changes. */
    method ToggleRow(id: nat) returns (click: Click)
      modifies this
      ensures toggleRowDefined == old(toggleRowDefined)
      ensures !HasHandler(old(table), id) ==> click == NoHandler && table == old(table)
      ensures HasHandler(old(table), id) && !toggleRowDefined ==>
        click == ToggleRowUninitialised && table == old(table)
      ensures HasHandler(old(table), id) && toggleRowDefined ==>
        && (click == Flipped <==> FindDetail(old(table), id).Some?)
        && (click == NoSuchElement <==> FindDetail(old(table), id).None?)
        && table == Toggled(old(table), id)
    {
      var h := 0;
      while h < |table| && !(table[h].Summary? && table[h].clickable && table[h].id == id)
        invariant 0 <= h <= |table|
        invariant forall q :: 0 <= q < h ==> !(table[q].Summary? && table[q].clickable && table[q].id == id)
      {
        h := h + 1;
      }
      if h == |table| {
        return NoHandler;
      }
      if !toggleRowDefined {
        return ToggleRowUninitialised;
      }
      var p := 0;
      while p < |table| && !(table[p].Detail? && table[p].id == id)
        invariant 0 <= p <= |table|
        invariant forall q :: 0 <= q < p ==> !(table[q].Detail? && table[q].id == id)
      {
        p := p + 1;
      }
      if p == |table| {
        return NoSuchElement;
      }
      assert FindDetail(table, id) == Some(p);
      table := table[p := table[p].(hidden := !table[p].hidden)];
      click := Flipped;
    }
  }
}
