/** The host's table data view as the visual receives it: cell values, column
    descriptors with role flags, and the table itself (src/visual.ts uses these
    through the powerbi-visuals-api types DataView, DataViewTable,
    DataViewMetadataColumn and PrimitiveValue). */
module HostTypes {

  datatype Option<+T> = None | Some(value: T)

  /** A cell of a host row. `Undefined` is the JavaScript value that indexing
      past the end of a row yields; the host itself never sends it. */
  datatype Value =
    | Str(s: string)
    | Num(x: real)
    | Bool(b: bool)
    | Date(millis: int)
    | Null
    | Undefined

  /** JavaScript truthiness, as an `if (v)` test reads a value. */
  predicate Truthy(v: Value) {
    match v
    case Str(s) => s != ""
    case Num(x) => x != 0.0
    case Bool(b) => b
    case Date(_) => true
    case Null => false
    case Undefined => false
  }

  /** Whether `v.toString()` returns a string: on `null` and `undefined` it
      throws a TypeError. */
  predicate Printable(v: Value) {
    !v.Null? && !v.Undefined?
  }

  /** A column descriptor: the header text, the position of the column's value
      in every row, and the data roles the column is bound to. */
  datatype Column = Column(displayName: string, index: nat, roles: map<string, bool>)

  const SUMMARY_ROLE := "summaryRow"
  const DETAIL_ROLE := "detailHTML"

  /** `c.roles[role]` read as a condition: absent and false roles are both off. */
  predicate HasRole(c: Column, role: string) {
    role in c.roles && c.roles[role]
  }

  type Row = seq<Value>

  /** DataViewTable: column descriptors and rows, positionally aligned by
      each column's `index` (the visual does not check that they are). */
  datatype TableView = TableView(columns: seq<Column>, rows: seq<Row>)

  /** A DataView: the table view is absent when the host sends none. */
  datatype DataView = DataView(table: Option<TableView>)
}
