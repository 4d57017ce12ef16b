/** Concrete tables and what the model says `transformData` and `update` do with them. */
module Scenarios {
  import opened HostTypes
  import opened Transform
  import opened Layout
  import opened VisualComponent

  const NAME := Column("Name", 0, map[SUMMARY_ROLE := true])
  const NOTES := Column("Notes", 1, map[DETAIL_ROLE := true])

  /** One summary column and one detail column: the detail cell leaves the
      summary row, and the table is a header, the summary row and its hidden
      detail row spanning the one heading. */
  lemma OneRowWithDetail()
    ensures var r := TransformData(TableView([NAME, NOTES], [[Str("Alice"), Str("<b>hi</b>")]]));
      && r == Ok(Transformed([NAME], [[Str("Alice")]], Some(NOTES), [Str("<b>hi</b>")]))
      && Drawn(r.value, 1) == [Header(["Name"]),
                               Summary(0, [Str("Alice")], true),
                               Detail(0, 1, Str("<b>hi</b>"), true)]
  {
    var data := TableView([NAME, NOTES], [[Str("Alice"), Str("<b>hi</b>")]]);
    assert Filter([NOTES], SUMMARY_ROLE) == [];
    assert Filter([NAME, NOTES], SUMMARY_ROLE) == [NAME];
    assert Filter([NOTES], DETAIL_ROLE) == [NOTES];
    assert Filter([NAME, NOTES], DETAIL_ROLE) == [NOTES];
    var row := [Str("Alice"), Str("<b>hi</b>")];
    assert RemoveAt(row, 1) == row[..1] + row[2..] == [Str("Alice")];
    var t := TransformData(data).value;
    assert t.summaryRowData == [[Str("Alice")]];
    assert t.detailRowData == [Str("<b>hi</b>")];
    assert HeadingNames([NAME]) == ["Name"];
    assert Body(t, 1) == RowNodes(0, [Str("Alice")], Str("<b>hi</b>"), 1);
  }

  /** An empty detail value is falsy: no detail row is drawn and the summary
      row is not clickable. */
  lemma EmptyDetailDrawsNoDetailRow()
    ensures var r := TransformData(TableView([NAME, NOTES], [[Str("Bob"), Str("")]]));
      && r.Ok?
      && Drawn(r.value, 1) == [Header(["Name"]), Summary(0, [Str("Bob")], false)]
  {
    assert Filter([NOTES], SUMMARY_ROLE) == [];
    assert Filter([NAME, NOTES], SUMMARY_ROLE) == [NAME];
    assert Filter([NOTES], DETAIL_ROLE) == [NOTES];
    assert Filter([NAME, NOTES], DETAIL_ROLE) == [NOTES];
    var row := [Str("Bob"), Str("")];
    assert RemoveAt(row, 1) == row[..1] + row[2..] == [Str("Bob")];
    var t := TransformData(TableView([NAME, NOTES], [row])).value;
    assert t.summaryRowData == [[Str("Bob")]];
    assert t.detailRowData == [Str("")];
    assert HeadingNames([NAME]) == ["Name"];
    assert Body(t, 1) == RowNodes(0, [Str("Bob")], Str(""), 1);
  }

  /** Without a detail column, a table with a row makes `transformData`
      throw, while a table with no rows is drawn as its header alone. */
  lemma MissingDetailColumn(rows: seq<Row>)
    ensures TransformData(TableView([NAME], rows)).NoDetailColumn? <==> |rows| > 0
    ensures rows == [] ==> Drawn(TransformData(TableView([NAME], rows)).value, 0) == [Header(["Name"])]
  {
    assert Filter([NAME][1..], DETAIL_ROLE) == [];
    assert Filter([NAME], DETAIL_ROLE) == [];
    assert Filter([NAME][1..], SUMMARY_ROLE) == [];
    assert Filter([NAME], SUMMARY_ROLE) == [NAME];
    assert HeadingNames([NAME]) == ["Name"];
  }

  /** An update that throws on the second row leaves the first row drawn with
      its click handler, but that handler's `toggleRow` was never
      initialised: the click throws and the detail row stays hidden. */
  method ClickAfterThrowingUpdate() returns (drawn: Outcome, click: Click, table: seq<Node>)
    ensures drawn == Threw(UnprintableCell(1))
    ensures click == ToggleRowUninitialised
    ensures table == [Header(["Name"]), Summary(0, [Str("A")], true), Detail(0, 1, Str("<b>x</b>"), true)]
  {
    var rows := [[Str("A"), Str("<b>x</b>")], [Null, Str("y")]];
    assert Filter([NOTES], SUMMARY_ROLE) == [];
    assert Filter([NAME, NOTES], SUMMARY_ROLE) == [NAME];
    assert Filter([NOTES], DETAIL_ROLE) == [NOTES];
    assert Filter([NAME, NOTES], DETAIL_ROLE) == [NOTES];
    assert RemoveAt(rows[0], 1) == rows[0][..1] + rows[0][2..] == [Str("A")];
    assert RemoveAt(rows[1], 1) == rows[1][..1] + rows[1][2..] == [Null];
    var t := TransformData(TableView([NAME, NOTES], rows)).value;
    assert t.summaryRowData == [[Str("A")], [Null]];
    assert t.detailRowData == [Str("<b>x</b>"), Str("y")];
    assert !Printable(t.summaryRowData[1][0]);
    assert UnprintableRowFrom(t.summaryRowData, 1) == Some(1);
    assert FirstUnprintableRow(t.summaryRowData) == Some(1);
    assert HeadingNames([NAME]) == ["Name"];
    assert Body(t, 1) == RowNodes(0, [Str("A")], Str("<b>x</b>"), 1);

    var v := new Visual();
    drawn := v.Update([DataView(Some(TableView([NAME, NOTES], rows)))]);
    assert v.table[1] == Summary(0, [Str("A")], true);
    click := v.ToggleRow(0);
    table := v.table;
  }

  /** After an update that draws every row, a click on the summary row
      reveals its detail row. */
  method ClickAfterFullDrawing() returns (drawn: Outcome, click: Click, table: seq<Node>)
    ensures drawn == Rendered
    ensures click == Flipped
    ensures table == [Header(["Name"]), Summary(0, [Str("Alice")], true), Detail(0, 1, Str("<b>hi</b>"), false)]
  {
    var data := TableView([NAME, NOTES], [[Str("Alice"), Str("<b>hi</b>")]]);
    OneRowWithDetail();
    var t := TransformData(data).value;
    assert FirstUnprintableRow(t.summaryRowData) == None by {
      assert UnprintableRowFrom(t.summaryRowData, 1) == None;
    }
    var before := Drawn(t, 1);
    assert FindDetail(before[1..], 0) == Some(1);
    assert FindDetail(before, 0) == Some(2);

    var v := new Visual();
    drawn := v.Update([DataView(Some(data))]);
    click := v.ToggleRow(0);
    table := v.table;
  }

  /** A summary row whose detail value is falsy gets no click handler, so
      clicking it does nothing. */
  method ClickRowWithoutHandler() returns (drawn: Outcome, click: Click, table: seq<Node>)
    ensures drawn == Rendered
    ensures click == NoHandler
    ensures table == [Header(["Name"]), Summary(0, [Str("Bob")], false)]
  {
    var data := TableView([NAME, NOTES], [[Str("Bob"), Str("")]]);
    EmptyDetailDrawsNoDetailRow();
    var t := TransformData(data).value;
    assert FirstUnprintableRow(t.summaryRowData) == None by {
      assert UnprintableRowFrom(t.summaryRowData, 1) == None;
    }

    var v := new Visual();
    drawn := v.Update([DataView(Some(data))]);
    click := v.ToggleRow(0);
    table := v.table;
  }
}
