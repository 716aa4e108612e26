/** The database registry (`Database`): a name and a map from table name to table. */
module Db {
  import opened Errors
  import opened Tables

  /** The value of a whole database's tables. */
  type DbState = map<string, TableValue>

  class Database {
    var dbName: string
    var tables: map<string, Table>

    /** Every name owns its own table object, as the map owns its values. */
    ghost predicate Valid()
      reads this
    {
      forall a, b :: a in tables && b in tables && a != b ==> tables[a] != tables[b]
    }

    /** The tables' current values. */
    ghost function State(): DbState
      reads this, tables.Values
    {
      map n | n in tables :: tables[n].Value()
    }

    /** `Database::new`: a named database without tables. */
    constructor (dbName: string)
      ensures this.dbName == dbName && tables == map[]
      ensures Valid() && State() == map[]
    {
      this.dbName := dbName;
      tables := map[];
    }

    /** `contains_table`: exact, case-sensitive membership of the name. */
    function ContainsTable(tableName: string): (b: bool)
      reads this
      ensures b <==> tableName in tables
    {
      tableName in tables
    }

    /** `get_table`: the stored table, or the "Table not found." error. */
    function GetTable(tableName: string): (r: Result<Table>)
      reads this
      ensures r.Success? <==> tableName in tables
      ensures r.Success? ==> r.value == tables[tableName]
      ensures r.Failure? ==> r.error == TableNotFound && r.error.Kind() == General
    {
      if tableName in tables then Success(tables[tableName]) else Failure(TableNotFound)
    }

    /** `get_table_mut`: the same lookup, handing out the table for in-place updates. */
    function GetTableMut(tableName: string): (r: Result<Table>)
      reads this
      ensures r.Success? <==> tableName in tables
      ensures r.Success? ==> r.value == tables[tableName]
      ensures r.Failure? ==> r.error == TableNotFound && r.error.Kind() == General
    {
      if tableName in tables then Success(tables[tableName]) else Failure(TableNotFound)
    }

    /** The state after the table under `tableName` changed in place and
        every other table kept its value. */
    lemma StateAfterUpdate(tableName: string, before: DbState)
      requires tableName in tables && before.Keys == tables.Keys
      requires forall n :: n in tables && n != tableName ==> tables[n].Value() == before[n]
      ensures State() == before[tableName := tables[tableName].Value()]
    {
    }

    /** The mutable lookup succeeds exactly when the membership test holds,
        which is what makes the dispatcher's unwrap after `contains_table` safe. */
    lemma GetTableMutAgreesWithContains(tableName: string)
      ensures GetTableMut(tableName).Success? <==> ContainsTable(tableName)
      ensures GetTable(tableName) == GetTableMut(tableName)
    {
    }
  }
}
