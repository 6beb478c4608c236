/**
 The in-memory table metadata and row model that the override layer
 rewrites: a table's exportable shape as produced by schema introspection,
 its unique indexes and outgoing references, and one exported row.
 */
module Schema {

  datatype Option<+T> = None | Some(value: T)

  /** Reserved name under which every virtual unique index is stored. */
  const VirtualIndexName: string := "virtual_main_unique_index"

  /** A unique index: its name and its ordered column list. */
  datatype UniqueIndex = UniqueIndex(Name: string, Columns: seq<string>)

  /** An outgoing foreign-key edge: the referenced table and the mapping from
      this table's columns to the referenced table's columns. */
  datatype Reference = Reference(TableName: string, ColumnMapping: map<string, string>)

  /** The row callback installed on a table: none, or one of the two
      callbacks the override layer defines. */
  datatype RowModCallback = NoCallback | ErrataSeverityReset | ImagePillarRewrite

  /** One table's exportable shape. `UnexportColumns` is the set of keys of
      the source's `map[string]bool`. */
  datatype Table = Table(
    Name: string,
    PKSequence: string,
    UniqueIndexes: map<string, UniqueIndex>,
    MainUniqueIndexName: string,
    UnexportColumns: set<string>,
    References: seq<Reference>,
    RowModCallback: RowModCallback)

  /** The dynamically typed value of a column. */
  datatype Value = Null | Number(n: int) | Text(s: string) | Bytes(b: seq<bv8>)

  /** One column of an exported row. `InitialValue` stands for what the row
      layer's `GetInitialValue` gives for the column. */
  datatype RowData = RowData(ColumnName: string, Value: Value, InitialValue: Value)
}
