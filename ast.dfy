/** The already-parsed statement tree handed to the core by the SQL parser.
    Only the fields the core reads are kept. */
module Ast {

  /** The SQL data types a column can be declared with; precision and length
      arguments are not read by the core and are dropped. */
  datatype DataType =
    | SmallInt | Int | BigInt | Boolean | Text | Varchar
    | Real | Float | Double | Decimal
    | OtherType                                   // every other SQL type

  /** A column option; `Unique(true)` is PRIMARY KEY, `Unique(false)` is UNIQUE. */
  datatype ColumnOption = Unique(isPrimary: bool) | NotNull | OtherOption

  datatype ColumnDef = ColumnDef(name: string, dataType: DataType, options: seq<ColumnOption>)

  /** A table-level constraint; the core never looks inside one. */
  datatype TableConstraint = TableConstraint(text: string)

  datatype Statement =
    | CreateTable(name: string, columns: seq<ColumnDef>, constraints: seq<TableConstraint>)
    | Insert(tableName: string, columnNames: seq<string>, rows: seq<seq<string>>)
    | Query
    | Delete
    | Other                                       // any other statement kind
}
