/** The table store seen from the dispatcher: a table's columns and rows,
    column lookup, the uniqueness check and the row append. The table
    module itself (`src/sql/db/table.rs`) is not part of this model; these
    definitions give it only the behaviour the dispatcher relies on, under
    this model's assumptions about that module: a row maps each named
    column to its value text (a column named twice keeps the later value),
    and a value clashes when an existing row holds the same text in the
    same unique column. */
module Tables {
  import opened Create

  /** A stored row: the literal text of each named cell, keyed by column name. */
  type Row = map<string, string>

  /** The value of one table: what the database's state is made of. */
  datatype TableValue = TableValue(name: string, columns: seq<ParsedColumn>, rows: seq<Row>)

  /** Result of the uniqueness check: clear, or the first column whose value clashes. */
  datatype Check = Clear | Clash(column: string)

  predicate HasColumn(columns: seq<ParsedColumn>, name: string)
  {
    exists i :: 0 <= i < |columns| && columns[i].name == name
  }

  predicate IsUniqueColumn(columns: seq<ParsedColumn>, name: string)
  {
    exists i :: 0 <= i < |columns| && columns[i].name == name && columns[i].isUnique
  }

  /** Some stored row holds `value` in `column`. */
  predicate ValueTaken(rows: seq<Row>, column: string, value: string)
  {
    exists k :: 0 <= k < |rows| && column in rows[k] && rows[k][column] == value
  }

  /** Writing `value` into `column` would break that column's uniqueness. */
  predicate Violates(t: TableValue, column: string, value: string)
  {
    IsUniqueColumn(t.columns, column) && ValueTaken(t.rows, column, value)
  }

  /** `validate_unique_constraint`: checks the (column, value) pairs in order
      and reports the first one that clashes with a stored row. */
  function UniqueCheck(t: TableValue, names: seq<string>, values: seq<string>): (r: Check)
    requires |names| == |values|
    ensures r.Clash? ==> r.column in names
    decreases |names|
  {
    if names == [] then Clear
    else if Violates(t, names[0], values[0]) then Clash(names[0])
    else UniqueCheck(t, names[1..], values[1..])
  }

  /** The check is clear exactly when no pair clashes, and a clash names a
      column whose value does clash. */
  lemma {:induction false} UniqueCheckMeaning(t: TableValue, names: seq<string>, values: seq<string>)
    requires |names| == |values|
    ensures UniqueCheck(t, names, values).Clear? <==>
      forall i :: 0 <= i < |names| ==> !Violates(t, names[i], values[i])
    ensures UniqueCheck(t, names, values).Clash? ==>
      exists i :: 0 <= i < |names| && names[i] == UniqueCheck(t, names, values).column && Violates(t, names[i], values[i])
    decreases |names|
  {
    if names != [] && !Violates(t, names[0], values[0]) {
      UniqueCheckMeaning(t, names[1..], values[1..]);
      assert forall i :: 1 <= i < |names| ==> names[i] == names[1..][i - 1] && values[i] == values[1..][i - 1];
    }
  }

  /** No later position of `names` repeats the name at position `i`. */
  predicate LastOccurrence(names: seq<string>, i: int)
    requires 0 <= i < |names|
  {
    forall j :: i < j < |names| ==> names[j] != names[i]
  }

  /** The row `insert_row` stores: the columns in order, each written over
      the row so far, so a column named twice keeps the later value. */
  function MakeRow(names: seq<string>, values: seq<string>): (row: Row)
    requires |names| == |values|
    ensures row.Keys <= set n | n in names
    decreases |names|
  {
    if names == [] then map[]
    else
      var n := |names|;
      MakeRow(names[..n - 1], values[..n - 1])[names[n - 1] := values[n - 1]]
  }

  /** The row has exactly the named columns. */
  lemma {:induction false} MakeRowKeys(names: seq<string>, values: seq<string>)
    requires |names| == |values|
    ensures forall k :: k in MakeRow(names, values) <==> k in names
    decreases |names|
  {
    if names != [] {
      var n := |names|;
      var ns, vs := names[..n - 1], values[..n - 1];
      MakeRowKeys(ns, vs);
      assert names == ns + [names[n - 1]];
    }
  }

  /** Each column holds the value given at its last occurrence. */
  lemma {:induction false} MakeRowValues(names: seq<string>, values: seq<string>)
    requires |names| == |values|
    ensures forall i :: 0 <= i < |names| && LastOccurrence(names, i) ==>
      names[i] in MakeRow(names, values) && MakeRow(names, values)[names[i]] == values[i]
    decreases |names|
  {
    if names != [] {
      var n := |names|;
      var ns, vs := names[..n - 1], values[..n - 1];
      MakeRowValues(ns, vs);
      var row := MakeRow(names, values);
      assert row == MakeRow(ns, vs)[names[n - 1] := values[n - 1]];
      forall i | 0 <= i < n && LastOccurrence(names, i)
        ensures names[i] in row && row[names[i]] == values[i]
      {
        if i < n - 1 {
          assert ns[i] == names[i] && vs[i] == values[i];
          assert names[n - 1] != names[i];
          assert LastOccurrence(ns, i) by {
            forall j | i < j < n - 1 ensures ns[j] != ns[i] {
              assert ns[j] == names[j];
            }
          }
        }
      }
    }
  }

  /** A table (`Table`) whose rows grow in place. */
  class Table {
    const name: string
    const columns: seq<ParsedColumn>
    var rows: seq<Row>

    /** `Table::new`: a table built from a schema, with no rows. */
    constructor (q: CreateQuery)
      ensures name == q.tableName && columns == q.columns && rows == []
    {
      name := q.tableName;
      columns := q.columns;
      rows := [];
    }

    function Value(): TableValue
      reads this
    {
      TableValue(name, columns, rows)
    }

    /** `contains_column` */
    function ContainsColumn(column: string): (b: bool)
      reads this
      ensures b <==> exists i :: 0 <= i < |columns| && columns[i].name == column
    {
      HasColumn(columns, column)
    }

    /** `validate_unique_constraint` */
    function ValidateUniqueConstraint(names: seq<string>, values: seq<string>): (r: Check)
      requires |names| == |values|
      reads this
      ensures r.Clear? <==> forall i :: 0 <= i < |names| ==> !Violates(Value(), names[i], values[i])
      ensures r.Clash? ==>
        exists i :: 0 <= i < |names| && names[i] == r.column && Violates(Value(), names[i], values[i])
    {
      UniqueCheckMeaning(Value(), names, values);
      UniqueCheck(Value(), names, values)
    }

    /** `insert_row`: appends one row and changes nothing else. */
    method InsertRow(names: seq<string>, values: seq<string>)
      requires |names| == |values|
      modifies this
      ensures rows == old(rows) + [MakeRow(names, values)]
    {
      rows := rows + [MakeRow(names, values)];
    }
  }
}
