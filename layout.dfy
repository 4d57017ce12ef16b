/** The table `update` draws, with the DOM abstracted to a sequence of nodes,
    and the effect of `toggleRow` on it. */
module Layout {
  import opened HostTypes
  import opened Transform

  /** A child of the `<table>` element. Row identifiers are row indices. */
  datatype Node =
    | Header(names: seq<string>)                              // the `th` with one `td` per heading
    | Summary(id: nat, cells: seq<Value>, clickable: bool)    // a `tr` with attribute rowId; onclick wired or not
    | Detail(id: nat, colSpan: nat, html: Value, hidden: bool) // a `tr` with id and class detail-row, hide-row when hidden

  /** The rows of a transform result line up with its detail values. */
  predicate Aligned(t: Transformed) {
    |t.summaryRowData| == |t.detailRowData|
  }

  /** The header labels, one per heading, in heading order. */
  function HeadingNames(headings: seq<Column>): seq<string> {
    seq(|headings|, j requires 0 <= j < |headings| => headings[j].displayName)
  }

  /** The nodes drawn for row i: its summary row, then a hidden detail row
      when the row's detail value is truthy. */
  function RowNodes(i: nat, cells: Row, detail: Value, colSpan: nat): seq<Node> {
    if Truthy(detail) then [Summary(i, cells, true), Detail(i, colSpan, detail, true)]
    else [Summary(i, cells, false)]
  }

  /** The nodes drawn for rows 0 .. n-1, in row order. */
  function Body(t: Transformed, n: nat): seq<Node>
    requires Aligned(t) && n <= |t.summaryRowData|
  {
    if n == 0 then []
    else Body(t, n - 1) + RowNodes(n - 1, t.summaryRowData[n - 1], t.detailRowData[n - 1], |t.headings|)
  }

  /** The table after the header and rows 0 .. n-1 have been drawn. */
  function Drawn(t: Transformed, n: nat): seq<Node>
    requires Aligned(t) && n <= |t.summaryRowData|
  {
    [Header(HeadingNames(t.headings))] + Body(t, n)
  }

  /** How many of the values are truthy. */
  function TruthyCount(values: seq<Value>): nat {
    if values == [] then 0
    else TruthyCount(values[..|values| - 1]) + (if Truthy(values[|values| - 1]) then 1 else 0)
  }

  predicate AllPrintable(row: Row) {
    forall j :: 0 <= j < |row| ==> Printable(row[j])
  }

  /** The first row, at or after `from`, that has a cell `toString` throws on. */
  function UnprintableRowFrom(rows: seq<Row>, from: nat): (r: Option<nat>)
    requires from <= |rows|
    ensures r.None? <==> forall j :: from <= j < |rows| ==> AllPrintable(rows[j])
    ensures r.Some? ==>
      && from <= r.value < |rows|
      && !AllPrintable(rows[r.value])
      && forall j :: from <= j < r.value ==> AllPrintable(rows[j])
    decreases |rows| - from
  {
    if from == |rows| then None
    else if !AllPrintable(rows[from]) then Some(from)
    else UnprintableRowFrom(rows, from + 1)
  }

  /** The first row that has a cell `toString` throws on, if any. */
  function FirstUnprintableRow(rows: seq<Row>): Option<nat> {
    UnprintableRowFrom(rows, 0)
  }

  /** The position of the node `getElementById(id)` returns: the first detail
      row carrying that id (summary rows carry it as `rowId`, not as `id`). */
  function FindDetail(nodes: seq<Node>, id: nat): (r: Option<nat>)
    ensures r.None? <==> forall q :: 0 <= q < |nodes| ==> !(nodes[q].Detail? && nodes[q].id == id)
    ensures r.Some? ==>
      && r.value < |nodes|
      && nodes[r.value].Detail? && nodes[r.value].id == id
      && forall q :: 0 <= q < r.value ==> !(nodes[q].Detail? && nodes[q].id == id)
  {
    if nodes == [] then None
    else if nodes[0].Detail? && nodes[0].id == id then Some(0)
    else match FindDetail(nodes[1..], id)
      case None => None
      case Some(p) => Some(p + 1)
  }

  /** The table after `toggleRow(id)`: the hide-row class of the detail row
      with that id is flipped; with no such row the call throws and nothing changes. */
  function Toggled(nodes: seq<Node>, id: nat): seq<Node> {
    match FindDetail(nodes, id)
    case None => nodes
    case Some(p) => nodes[p := nodes[p].(hidden := !nodes[p].hidden)]
  }

  /** Some summary row with that id has a click handler calling
      `toggleRow(id)` (line 65 installs one only for a truthy detail). */
  predicate HasHandler(nodes: seq<Node>, id: nat) {
    exists q :: 0 <= q < |nodes| && nodes[q].Summary? && nodes[q].clickable && nodes[q].id == id
  }

  /** The table has one node per row plus one per truthy detail value. */
  lemma {:induction false} BodyLength(t: Transformed, n: nat)
    requires Aligned(t) && n <= |t.summaryRowData|
    ensures |Body(t, n)| == n + TruthyCount(t.detailRowData[..n])
  {
    if n > 0 {
      BodyLength(t, n - 1);
      assert t.detailRowData[..n][..n - 1] == t.detailRowData[..n - 1];
    }
  }

  /** Drawn with all rows: one header, one summary per row and one detail per
      truthy detail value. */
  lemma DrawnLength(t: Transformed)
    requires Aligned(t)
    ensures |Drawn(t, |t.summaryRowData|)| == 1 + |t.summaryRowData| + TruthyCount(t.detailRowData)
  {
    BodyLength(t, |t.summaryRowData|);
    assert t.detailRowData[..|t.summaryRowData|] == t.detailRowData;
  }

  /** Row i's summary node sits at position i + (truthy details before it);
      a detail node follows it exactly when the row's detail value is truthy.
      That detail node is hidden, spans all headings and has the row's id. */
  lemma {:induction false} BodyRowAt(t: Transformed, n: nat, i: nat)
    requires Aligned(t) && n <= |t.summaryRowData| && i < n
    ensures var p := i + TruthyCount(t.detailRowData[..i]);
      && p < |Body(t, n)|
      && Body(t, n)[p] == Summary(i, t.summaryRowData[i], Truthy(t.detailRowData[i]))
      && (Truthy(t.detailRowData[i]) ==>
            p + 1 < |Body(t, n)| && Body(t, n)[p + 1] == Detail(i, |t.headings|, t.detailRowData[i], true))
      && (!Truthy(t.detailRowData[i]) ==> p + 1 == |Body(t, n)| || Body(t, n)[p + 1].Summary?)
  {
    var p := i + TruthyCount(t.detailRowData[..i]);
    var last := RowNodes(n - 1, t.summaryRowData[n - 1], t.detailRowData[n - 1], |t.headings|);
    assert Body(t, n) == Body(t, n - 1) + last;
    if i == n - 1 {
      BodyLength(t, n - 1);
    } else {
      BodyRowAt(t, n - 1, i);
      if p + 1 == |Body(t, n - 1)| {
        assert Body(t, n)[p + 1] == last[0];
      }
    }
  }

  /** The summary node drawn for its row. */
  predicate SummaryOfRow(t: Transformed, node: Node)
    requires Aligned(t)
  {
    && node.Summary?
    && node.id < |t.summaryRowData|
    && node == Summary(node.id, t.summaryRowData[node.id], Truthy(t.detailRowData[node.id]))
  }

  /** The detail node drawn for its row: only for a truthy detail value,
      hidden, spanning all headings. */
  predicate DetailOfRow(t: Transformed, node: Node)
    requires Aligned(t)
  {
    && node.Detail?
    && node.id < |t.summaryRowData|
    && Truthy(t.detailRowData[node.id])
    && node == Detail(node.id, |t.headings|, t.detailRowData[node.id], true)
  }

  /** A detail node at position q comes right after the summary node with its id. */
  predicate FollowsItsSummary(nodes: seq<Node>, q: nat)
    requires q < |nodes|
  {
    nodes[q].Detail? ==> 0 < q && nodes[q - 1].Summary? && nodes[q - 1].id == nodes[q].id
  }

  /** Every node of the body is the summary or the detail node of one of the
      drawn rows, and each detail node directly follows its row's summary node. */
  lemma {:induction false} BodyNodes(t: Transformed, n: nat)
    requires Aligned(t) && n <= |t.summaryRowData|
    ensures forall q :: 0 <= q < |Body(t, n)| ==> SummaryOfRow(t, Body(t, n)[q]) || DetailOfRow(t, Body(t, n)[q])
    ensures forall q :: 0 <= q < |Body(t, n)| ==> !Body(t, n)[q].Header? && Body(t, n)[q].id < n
    ensures forall q :: 0 <= q < |Body(t, n)| ==> FollowsItsSummary(Body(t, n), q)
  {
    if n > 0 {
      BodyNodes(t, n - 1);
      var prefix := Body(t, n - 1);
      var last := RowNodes(n - 1, t.summaryRowData[n - 1], t.detailRowData[n - 1], |t.headings|);
      var body := Body(t, n);
      assert body == prefix + last;
      forall q | 0 <= q < |body|
        ensures SummaryOfRow(t, body[q]) || DetailOfRow(t, body[q])
        ensures !body[q].Header? && body[q].id < n
        ensures FollowsItsSummary(body, q)
      {
        if q < |prefix| {
          assert body[q] == prefix[q];
          assert FollowsItsSummary(prefix, q);
          if q > 0 {
            assert body[q - 1] == prefix[q - 1];
          }
        } else {
          assert body[q] == last[q - |prefix|];
          assert body[|prefix|] == last[0];
        }
      }
    }
  }

  /** Identifiers grow strictly along the body among summary nodes and among
      detail nodes, so no two summary rows and no two detail rows share an id. */
  lemma {:induction false} BodyIdsIncrease(t: Transformed, n: nat)
    requires Aligned(t) && n <= |t.summaryRowData|
    ensures forall q, q' :: 0 <= q < q' < |Body(t, n)| && Body(t, n)[q].Summary? && Body(t, n)[q'].Summary? ==>
      Body(t, n)[q].id < Body(t, n)[q'].id
    ensures forall q, q' :: 0 <= q < q' < |Body(t, n)| && Body(t, n)[q].Detail? && Body(t, n)[q'].Detail? ==>
      Body(t, n)[q].id < Body(t, n)[q'].id
  {
    if n > 0 {
      BodyIdsIncrease(t, n - 1);
      BodyNodes(t, n - 1);
      var prefix := Body(t, n - 1);
      var last := RowNodes(n - 1, t.summaryRowData[n - 1], t.detailRowData[n - 1], |t.headings|);
      assert Body(t, n) == prefix + last;
      assert forall q :: 0 <= q < |prefix| ==> Body(t, n)[q] == prefix[q];
      assert forall q :: |prefix| <= q < |Body(t, n)| ==> Body(t, n)[q] == last[q - |prefix|];
    }
  }

  /** Toggling changes only the hidden flag of the node `getElementById`
      finds, and the length of the table. */
  lemma ToggledChangesOnlyTarget(nodes: seq<Node>, id: nat)
    ensures |Toggled(nodes, id)| == |nodes|
    ensures FindDetail(nodes, id).None? ==> Toggled(nodes, id) == nodes
    ensures FindDetail(nodes, id).Some? ==>
      var p := FindDetail(nodes, id).value;
      && Toggled(nodes, id)[p] == nodes[p].(hidden := !nodes[p].hidden)
      && forall q :: 0 <= q < |nodes| && q != p ==> Toggled(nodes, id)[q] == nodes[q]
  {
  }

  /** Toggling the same id twice restores the table. */
  lemma ToggleTwice(nodes: seq<Node>, id: nat)
    ensures Toggled(Toggled(nodes, id), id) == nodes
  {
    match FindDetail(nodes, id)
    case None =>
    case Some(p) =>
      var once := Toggled(nodes, id);
      assert forall q :: 0 <= q < |nodes| ==> once[q].Detail? == nodes[q].Detail? && (once[q].Detail? ==> once[q].id == nodes[q].id);
      assert FindDetail(once, id) == Some(p);
  }

  /** In the body, the first detail node with row i's id is row i's own,
      right after row i's summary node; there is none when row i's detail
      value is falsy. */
  lemma BodyFindDetail(t: Transformed, n: nat, i: nat)
    requires Aligned(t) && n <= |t.summaryRowData| && i < n
    ensures var p := i + TruthyCount(t.detailRowData[..i]);
      && (Truthy(t.detailRowData[i]) ==> FindDetail(Body(t, n), i) == Some(p + 1))
      && (!Truthy(t.detailRowData[i]) ==> FindDetail(Body(t, n), i) == None)
  {
    var body := Body(t, n);
    var p := i + TruthyCount(t.detailRowData[..i]);
    if Truthy(t.detailRowData[i]) {
      BodyRowAt(t, n, i);
      BodyIdsIncrease(t, n);
    } else {
      BodyNodes(t, n);
      forall q | 0 <= q < |body| && body[q].Detail?
        ensures body[q].id != i
      {
      }
    }
  }

  /** In a fully drawn table, toggling row i's id reaches row i's own detail
      node, which sits right after row i's summary node, and flips only it;
      for a row without a detail node it changes nothing. */
  lemma ToggleDrawnRow(t: Transformed, i: nat)
    requires Aligned(t) && i < |t.summaryRowData|
    ensures var n := |t.summaryRowData|;
      var p := 1 + i + TruthyCount(t.detailRowData[..i]);
      && p < |Drawn(t, n)|
      && Drawn(t, n)[p] == Summary(i, t.summaryRowData[i], Truthy(t.detailRowData[i]))
      && (Truthy(t.detailRowData[i]) ==>
            && p + 1 < |Drawn(t, n)|
            && FindDetail(Drawn(t, n), i) == Some(p + 1)
            && Toggled(Drawn(t, n), i) == Drawn(t, n)[p + 1 := Detail(i, |t.headings|, t.detailRowData[i], false)])
      && (!Truthy(t.detailRowData[i]) ==>
            && FindDetail(Drawn(t, n), i) == None
            && Toggled(Drawn(t, n), i) == Drawn(t, n))
  {
    var n := |t.summaryRowData|;
    var body := Body(t, n);
    var header := Header(HeadingNames(t.headings));
    BodyRowAt(t, n, i);
    BodyFindDetail(t, n, i);
    ToggleAfterHeader(header, body, i);
    var p := i + TruthyCount(t.detailRowData[..i]);
    if Truthy(t.detailRowData[i]) {
      var shown := Detail(i, |t.headings|, t.detailRowData[i], false);
      assert Toggled(body, i) == body[p + 1 := shown];
      assert [header] + body[p + 1 := shown] == ([header] + body)[p + 2 := shown];
    }
  }

  /** A node that is not a detail row in front of the table shifts what
      `getElementById` finds by one and is left alone by toggling. */
  lemma ToggleAfterHeader(header: Node, nodes: seq<Node>, id: nat)
    requires !header.Detail?
    ensures FindDetail([header] + nodes, id) ==
      if FindDetail(nodes, id).Some? then Some(FindDetail(nodes, id).value + 1) else None
    ensures Toggled([header] + nodes, id) == [header] + Toggled(nodes, id)
  {
    assert ([header] + nodes)[1..] == nodes;
  }

  /** In a drawn table, a summary row has a click handler exactly when
      `getElementById` finds a detail row for its id: a click that reaches
      `toggleRow` never meets a null element. */
  lemma DrawnHandlerFindsDetail(t: Transformed, n: nat, id: nat)
    requires Aligned(t) && n <= |t.summaryRowData|
    ensures HasHandler(Drawn(t, n), id) <==> FindDetail(Drawn(t, n), id).Some?
  {
    var body := Body(t, n);
    var header := Header(HeadingNames(t.headings));
    assert Drawn(t, n) == [header] + body;
    ToggleAfterHeader(header, body, id);
    BodyNodes(t, n);
    if HasHandler(Drawn(t, n), id) {
      var q :| 0 <= q < |Drawn(t, n)| && Drawn(t, n)[q].Summary? && Drawn(t, n)[q].clickable && Drawn(t, n)[q].id == id;
      assert body[q - 1] == Drawn(t, n)[q];
      assert SummaryOfRow(t, body[q - 1]);
      BodyFindDetail(t, n, id);
    }
    if FindDetail(Drawn(t, n), id).Some? {
      var q := FindDetail(body, id).value;
      assert FollowsItsSummary(body, q);
      assert DetailOfRow(t, body[q]);
      assert SummaryOfRow(t, body[q - 1]);
      assert Drawn(t, n)[q] == body[q - 1];
    }
  }
}
