# Collapsible summary/detail table visual — Dafny model

This project models the one class of the tableExperiment visual, `Visual` in
`src/visual.ts`. The visual is a plugin for a business-intelligence host. On
every host update it turns the host's table view into a summary/detail
projection (`transformData`) and redraws its `<table>` element (`update`).
Each summary row may be followed by a hidden detail row. Clicking the summary
row toggles that detail row (`toggleRow`), but only when the `update` call that
drew it ran to its end: the click handler calls the `toggleRow` constant that
`update` declares last (line 78), so after an `update` that threw the handler
throws a ReferenceError instead.

Modules, one per concern of the source file:

- `HostTypes` (`host_types.dfy`): the host data the visual reads. This covers
  cell values with their JavaScript truthiness and whether `toString`
  succeeds on them, column descriptors with role flags, table views and data views.
- `Transform` (`transform.dfy`): `transformData` as pure functions. Headings
  are the columns with the `summaryRow` role, in column order. The detail
  column is the first column with the `detailHTML` role. Each summary row is
  the row without the cell at the detail column's `index`, with JavaScript
  `slice` clamping. Each detail entry is `row[index]`, which is `undefined`
  past the end of the row.
- `Layout` (`layout.dfy`): the children of the `<table>` as a sequence of
  abstract nodes: `Header(names)`, `Summary(id, cells, clickable)` and
  `Detail(id, colSpan, html, hidden)`. It also holds the table `update`
  draws (`Drawn`), the node `getElementById` finds (`FindDetail`), the effect
  of `toggleRow` (`Toggled`), and the lemmas about their layout.
- `VisualComponent` (`visual.dfy`): the errors `update` propagates and
  class `Visual`, whose field `table` is the node sequence and whose field
  `toggleRowDefined` records whether the `update` that drew the current rows
  reached line 78. `Update` and its drawing part `Draw` follow `update`'s
  loops step by step: remove the first child until none is left, append the
  header cells, then for each row append the cells, the summary row and the
  optional detail row. `ToggleRow` is a click on a summary row: when the row
  has a handler and `toggleRow` is initialised, it searches for the detail row
  and flips its hidden flag.
- `Scenarios` (`scenarios.dfy`): concrete tables, worked through
  `transformData`, the drawing, and clicks after an update that finished and
  after one that threw.

What the code does, in the cases that matter for the model:

- Headings are the summary-role columns in column order. Cells are shown as
  they come, without formatting, and rows are kept in the order the host sends.
- When no column has the detail role and there is at least one row,
  `detailRowMeta.index` throws a TypeError (line 90). When there are no rows,
  the `map` callbacks never run and nothing throws. The model has this as
  `NoDetailColumn` only when rows exist. Because the table was already
  cleared (lines 37-39), `Update` ends with an empty table.
- A summary row keeps every cell except the detail cell, whatever roles the
  other columns have. `CellsUnderHeadings` states when the cells line up
  with the headings. That holds when every column has exactly one of the two
  roles, there is a single detail column, each column's `index` is its
  position, and rows are rectangular.
- `toString` on a `null` or `undefined` summary cell throws (line 59) before
  that row's summary node is appended. The table then holds the header and
  the nodes of the earlier rows, and their click handlers throw when clicked.
- With no data view at all, `options.dataViews[0].table` throws before anything is cleared.

`transformData` has no side effects and gives equal outputs for equal
inputs. `TransformData` is a Dafny function without a `reads` clause, so it
satisfies both by construction.

Row identifiers are the row indices. They are fresh within one pass, and
`BodyIdsIncrease` proves them distinct.

## Model

| member | source | states |
|---|---|---|
| `HostTypes.Truthy` | src/visual.ts:64 | How the `if` reads a detail value: a non-empty string, a non-zero number, `true` or a date is truthy; `null`, `undefined`, `""`, `0` and `false` are not. `BodyRowAt` and `BodyNodes` use it to decide whether a detail row is drawn. |
| `HostTypes.Printable` | src/visual.ts:59 | `toString` succeeds on every value except `null` and `undefined`. `SummaryCells` and `UnprintableRowFrom` use it to find the row where `update` throws. |
| `Transform.Filter` | src/visual.ts:85 | `columns.filter` on a role flag. Its order, membership and selection properties are the lemmas `FilterSelectsRolePositions`, `FilterMembers`, `FilterAppend` and `FilterUniform`. |
| `Transform.FirstWithRole` | src/visual.ts:87 | `[0]` of the filtered columns, undefined when none has the role. It is characterized by `FirstWithRoleIsFirstMatch`. |
| `Transform.Slice` | src/visual.ts:90 | JavaScript `slice` with non-negative bounds: never longer than the row; `row[begin..end]` when both bounds are in range; the rest of the row from `begin` when `end` is past the end; empty when `begin` is past the end or `end <= begin`. |
| `Transform.At` | src/visual.ts:94 | `row[k]`: the cell at k, or `undefined` past the end of the row. `TransformData`'s contract states what it gives for each row. |
| `Transform.TransformData` | src/visual.ts:84-103 | Fails exactly when no column has the detail role and there is a row, and then with NoDetailColumn. Otherwise: headings are the summary-role columns; the detail column is the first detail-role column; one summary row and one detail entry per input row, in input order. With detail index k < \|row\|, the summary row is row[..k] + row[k+1..] and the detail entry is row[k]. With k past the end, the summary row is the whole row and the detail entry is undefined. |
| `Transform.RemoveAt` | src/visual.ts:90 | The spread of the two JavaScript slices is the row without position k. It has length \|row\| - 1 and keeps the other cells in their order (cell j comes from position j, or j + 1 from k on). A k past the end leaves the row unchanged. |
| `Transform.FilterSelectsRolePositions` | src/visual.ts:85 | The headings are the columns at a strictly ascending list of positions. These are exactly the positions of the columns with the role. So no column is reordered or duplicated, and none with the role is dropped. |
| `Transform.FilterMembers` | src/visual.ts:85 | A column is a heading iff it is among the columns and has the role. Its multiplicity among the headings equals its multiplicity among the columns, or zero without the role. |
| `Transform.FilterAppend` | src/visual.ts:85 | Filtering distributes over concatenation, so the relative order of columns is kept. |
| `Transform.FirstWithRoleIsFirstMatch` | src/visual.ts:87 | `filter(...)[0]` is undefined iff no column has the detail role. Otherwise it is the column at the first position with that role. |
| `Transform.CellsUnderHeadings` | src/visual.ts:85-95 | On a table bound by role (each column has one of the two roles, a single detail column, index = position, rectangular rows), every summary row has one cell per heading. Cell j is the row's value in heading j's column, and the detail entry is the row's value in the detail column. |
| `Transform.HeadingsSkipDetail` | src/visual.ts:85 | With exactly one role per column and one detail column at position k, the headings are all the other columns, in order. |
| `Layout.RowNodes` | src/visual.ts:54-75 | The nodes one row adds: its summary node, clickable iff the detail is truthy, then a hidden detail node spanning the headings when it is. |
| `Layout.Body` | src/visual.ts:53-76 | The nodes of rows 0 .. n-1, appended in row order. Its layout is the lemmas `BodyLength`, `BodyRowAt`, `BodyNodes`, `BodyIdsIncrease` and `BodyFindDetail`. |
| `Layout.Drawn` | src/visual.ts:44-76 | The header node followed by `Body`. `Update` and `Draw` are proved to leave exactly this table; `DrawnLength` and `ToggleDrawnRow` state its properties. |
| `Layout.Toggled` | src/visual.ts:79-80 | `ToggleRow`'s effect: the hidden flag of the node `FindDetail` finds is flipped, or the table is unchanged when there is none. Its properties are `ToggledChangesOnlyTarget`, `ToggleTwice` and `ToggleDrawnRow`. |
| `Layout.HasHandler` | src/visual.ts:65 | Some summary row with that id carries a click handler. |
| `Layout.DrawnHandlerFindsDetail` | src/visual.ts:64-80 | In any drawing, full or partial, a summary row with the id has a click handler iff `getElementById` finds a detail row with that id. So a click that reaches `toggleRow` never meets a null element. |
| `Layout.UnprintableRowFrom` | src/visual.ts:57-61 | Finds the first row at or after `from` that has a null or undefined cell, on which `toString` throws. It returns none iff every such row prints. |
| `Layout.FindDetail` | src/visual.ts:79 | `getElementById(id)` finds the first Detail node carrying the id (summary rows carry it as `rowId`, not `id`). It finds none iff no Detail node has that id. |
| `Layout.BodyLength` | src/visual.ts:53-76 | The first n rows draw n summary nodes plus one node per truthy detail value among them. |
| `Layout.DrawnLength` | src/visual.ts:44-76 | A full drawing has 1 + \|rows\| + (number of truthy detail values) nodes. |
| `Layout.BodyRowAt` | src/visual.ts:53-75 | Row i's summary node is at position i + (truthy details before i), with its cells and clickable iff its detail is truthy. If the detail value is truthy, the next node is Detail(i, \|headings\|, detail, hidden). If it is falsy, the next node is another summary node or the end of the table. |
| `Layout.BodyNodes` | src/visual.ts:54-74 | Every drawn node is the summary or the detail node of a drawn row. Detail nodes exist only for truthy details, are hidden, span all headings, hold the detail value, and directly follow the summary node with the same id. |
| `Layout.BodyIdsIncrease` | src/visual.ts:55-56 | Ids strictly increase among summary nodes and among detail nodes, so each id labels one summary row and at most one detail row. |
| `Layout.ToggledChangesOnlyTarget` | src/visual.ts:78-81 | Toggling flips the hidden flag of the found node only and leaves every other node and the length unchanged. With no node found, the table is unchanged. |
| `Layout.ToggleTwice` | src/visual.ts:78-81 | Toggling the same id twice restores the table. |
| `Layout.BodyFindDetail` | src/visual.ts:64-79 | Within the drawn rows, looking up row i's id finds row i's own detail node right after its summary node, or nothing when row i's detail is falsy. |
| `Layout.ToggleDrawnRow` | src/visual.ts:65-81 | In a fully drawn table, toggling row i reveals exactly row i's detail node, which directly follows row i's summary node. For a row with a falsy detail, toggling finds nothing and changes nothing. |
| `VisualComponent.HeaderCells` | src/visual.ts:45-49 | The header gets one label per heading, label j being heading j's display name. |
| `VisualComponent.SummaryCells` | src/visual.ts:57-61 | A summary row's cells are built iff every value prints (none is null or undefined), and then they are exactly the row's values, in order. Otherwise the loop stops at the first unprintable value, and the cells built so far are the printable prefix before it; `Draw` discards them, since line 62 is never reached. |
| `VisualComponent.Visual.constructor` | src/visual.ts:25-26 | The visual starts with an empty table, and no click handler exists yet. |
| `VisualComponent.Visual.Update` | src/visual.ts:30-82 | With no data view: throws and the table is unchanged. With no table view: returns early and the table is unchanged. Otherwise it clears the table. If transformData throws, the table stays empty. If not, the table is the full drawing, or on the first row with an unprintable cell it throws with the header and the earlier rows drawn. The result never depends on the previous children. After the clear, `toggleRow` is initialised iff the call ends with `Rendered`; the early returns leave that flag as it was. |
| `VisualComponent.Visual.Draw` | src/visual.ts:43-81 | From an empty table, draws the header (one name per heading, in order) and each row's nodes in input order. It stops at the first row with a null or undefined cell. `toggleRow` is initialised iff every row was drawn. |
| `VisualComponent.Visual.ToggleRow` | src/visual.ts:65-81 | A click on the summary row with that id. If no such row has a click handler (line 65 installs one only for a truthy detail), nothing happens. If the drawing `update` threw before line 78, the click throws a ReferenceError. In both cases the table is unchanged. Otherwise the new table is `Toggled(old table, id)`, and the click flips a node exactly when `getElementById` finds one; when it returns null the call throws a TypeError. |
| `Scenarios.OneRowWithDetail` | src/visual.ts:44-103 | A name column and a notes column with one row: the summary row is ["Alice"]. The table is the header ["Name"], the clickable summary row and a hidden detail row with colSpan 1. |
| `Scenarios.EmptyDetailDrawsNoDetailRow` | src/visual.ts:64 | An empty-string detail value is falsy, so no detail row is drawn and the summary row is not clickable. |
| `Scenarios.ClickAfterThrowingUpdate` | src/visual.ts:53-81 | Rows `["A", "<b>x</b>"]` and `[null, "y"]`: `update` throws on row 1 with row 0 and its hidden detail row drawn, and clicking row 0 throws a ReferenceError and leaves the detail row hidden. |
| `Scenarios.ClickAfterFullDrawing` | src/visual.ts:44-81 | One row with a truthy detail: `update` renders, and clicking its summary row reveals its detail row. |
| `Scenarios.ClickRowWithoutHandler` | src/visual.ts:64-65 | A row with an empty detail value is drawn without a click handler, so clicking it does nothing and the table is unchanged. |
| `Scenarios.MissingDetailColumn` | src/visual.ts:87-95 | Without a detail column, transformData throws iff there is a row. With no rows, the drawing is the header alone. |

## Left out

- DOM calls (`createElement`, `appendChild`, `innerText`, `innerHTML`, `classList`, `setAttribute`) are replaced by the node sequence, and the `onclick` wiring is replaced by the `clickable` flag. These are browser I/O.
- `uuidv4()` is replaced by the row index as the row id. It is a foreign random generator, and the index is unique within one pass.
- `toString` of cell and detail values: nodes hold the values themselves. Only whether `toString` throws (on null or undefined) is modelled, because string conversion is JavaScript coercion.
- Numbers are modelled as reals, because floating point is not modelled. NaN and the infinities cannot be represented, so a NaN cell (falsy in JavaScript) has no counterpart in the model.
- Closures left by a previous `update` that still refer to old ids are not modelled, nor are other elements of the document that could share an id. These belong to the surrounding page, which is not part of this model.
- The host types beyond what the visual reads, the constructor's `target` and `host` fields, the host lifecycle and the style import. These are external plumbing.
- Absent host fields are not modelled: the model takes `columns`, `roles`, `rows` (line 89) and the detail column's `index` (line 90) as always present. Without `rows`, line 89 would throw after the table was cleared. Without `index`, `row.slice(0, undefined)` and `row.slice(NaN)` both return the whole row, so each summary row would be the row twice and each detail value `undefined`.
