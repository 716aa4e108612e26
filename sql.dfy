/** The statement dispatcher (`src/sql/mod.rs`): the first-token classifier
    and `process_command`, which installs new tables and drives row inserts. */
module Sql {
  import opened Errors
  import opened Ast
  import opened Text
  import opened Create
  import opened Tables
  import opened Db

  // ---------------------------------------------------------------------
  // SQLCommand::new

  /** The kind of SQL command, each carrying the whole command text. */
  datatype SqlCommand =
    | InsertCmd(command: string)
    | DeleteCmd(command: string)
    | UpdateCmd(command: string)
    | CreateTableCmd(command: string)
    | SelectCmd(command: string)
    | UnknownCmd(command: string)

  predicate IsSpace(c: char)
  {
    c == ' '
  }

  /** `SQLCommand::new`: classifies by the text before the first space,
      compared case-sensitively with the lower-case keywords. */
  function NewSqlCommand(command: string): (r: SqlCommand)
    ensures r.command == command
    ensures var first := PrefixUntil(command, IsSpace);
      && (r.InsertCmd? <==> first == "insert")
      && (r.UpdateCmd? <==> first == "update")
      && (r.DeleteCmd? <==> first == "delete")
      && (r.CreateTableCmd? <==> first == "create")
      && (r.SelectCmd? <==> first == "select")
  {
    match PrefixUntil(command, IsSpace)
    case "insert" => InsertCmd(command)
    case "update" => UpdateCmd(command)
    case "delete" => DeleteCmd(command)
    case "create" => CreateTableCmd(command)
    case "select" => SelectCmd(command)
    case _ => UnknownCmd(command)
  }

  /** The keyword is compared as written: an upper-case keyword falls through
      to Unknown, while the lower-case one is recognised whatever follows the space. */
  lemma ClassifierIsCaseSensitive(rest: string)
    ensures NewSqlCommand("INSERT " + rest).UnknownCmd?
    ensures NewSqlCommand("insert " + rest) == InsertCmd("insert " + rest)
  {
    var upper, lower := "INSERT " + rest, "insert " + rest;
    PrefixUntilAt(upper, IsSpace, 6);
    PrefixUntilAt(lower, IsSpace, 6);
    assert upper[..6] == "INSERT" && lower[..6] == "insert";
  }

  // ---------------------------------------------------------------------
  // The value-tuple loop of an INSERT.

  /** One iteration: the arity check, the uniqueness check, then the append. */
  function InsertOne(t: TableValue, names: seq<string>, value: seq<string>): (r: (Outcome, TableValue))
    ensures |names| != |value| ==> r.0 == Fail(ValueCountMismatch(|value|, |names|))
    ensures |names| == |value| && r.0.Fail? ==> r.0.error.UniqueViolation? && r.0.error.detail in names
    ensures r.0.Fail? ==> r.1 == t
    ensures r.0.Pass? ==> |names| == |value| && r.1 == t.(rows := t.rows + [MakeRow(names, value)])
  {
    if |names| != |value| then (Fail(ValueCountMismatch(|value|, |names|)), t)
    else
      match UniqueCheck(t, names, value)
      case Clash(column) => (Fail(UniqueViolation(column)), t)
      case Clear => (Pass, t.(rows := t.rows + [MakeRow(names, value)]))
  }

  /** A tuple is refused exactly when its arity is wrong or one of its values
      clashes with a stored row on a unique column; a clash is reported on a
      column whose value does clash. */
  lemma InsertOneRefuses(t: TableValue, names: seq<string>, value: seq<string>)
    ensures InsertOne(t, names, value).0.Fail? <==>
      |names| != |value| || exists i :: 0 <= i < |names| && Violates(t, names[i], value[i])
    ensures |names| == |value| && InsertOne(t, names, value).0.Fail? ==>
      exists i :: 0 <= i < |names| && names[i] == InsertOne(t, names, value).0.error.detail && Violates(t, names[i], value[i])
  {
    if |names| == |value| {
      UniqueCheckMeaning(t, names, value);
    }
  }

  /** The tuples in order, stopping at the first one that fails; the rows of
      the tuples before it stay appended. */
  function InsertFrom(t: TableValue, names: seq<string>, tuples: seq<seq<string>>): (r: (Outcome, TableValue))
    ensures r.1.name == t.name && r.1.columns == t.columns
    ensures |t.rows| <= |r.1.rows| <= |t.rows| + |tuples|
    ensures r.0.Pass? ==> |r.1.rows| == |t.rows| + |tuples|
    decreases |tuples|
  {
    if tuples == [] then (Pass, t)
    else
      var step := InsertOne(t, names, tuples[0]);
      if step.0.Fail? then (step.0, t) else InsertFrom(step.1, names, tuples[1..])
  }

  /** Rows already stored are never rewritten: the old rows are a prefix of the new. */
  lemma {:induction false} InsertFromKeepsRows(t: TableValue, names: seq<string>, tuples: seq<seq<string>>)
    ensures t.rows <= InsertFrom(t, names, tuples).1.rows
    decreases |tuples|
  {
    if tuples != [] {
      var step := InsertOne(t, names, tuples[0]);
      if step.0.Pass? {
        InsertFromKeepsRows(step.1, names, tuples[1..]);
      }
    }
  }

  lemma {:induction false} InsertFromAppend(t: TableValue, names: seq<string>, a: seq<seq<string>>, b: seq<seq<string>>)
    ensures InsertFrom(t, names, a + b) ==
      if InsertFrom(t, names, a).0.Fail? then InsertFrom(t, names, a)
      else InsertFrom(InsertFrom(t, names, a).1, names, b)
    decreases |a|
  {
    if a == [] {
      assert a + b == b;
    } else {
      var ab := a + b;
      assert ab[0] == a[0] && ab[1..] == a[1..] + b;
      var step := InsertOne(t, names, a[0]);
      if step.0.Pass? {
        InsertFromAppend(step.1, names, a[1..], b);
      }
    }
  }

  lemma InsertFromSingle(t: TableValue, names: seq<string>, v: seq<string>)
    ensures InsertFrom(t, names, [v]) == InsertOne(t, names, v)
  {
    var step := InsertOne(t, names, v);
    assert [v][1..] == [];
    if step.0.Pass? {
      assert InsertFrom(step.1, names, []) == (Pass, step.1);
    }
  }

  /** When every earlier tuple is accepted and tuple `k` is refused, the call
      fails with tuple `k`'s error and exactly tuples 0..k-1 are appended. */
  lemma InsertFromCommitsPrefix(t: TableValue, names: seq<string>, tuples: seq<seq<string>>, k: nat, cur: TableValue)
    requires k < |tuples|
    requires InsertFrom(t, names, tuples[..k]) == (Pass, cur)
    requires InsertOne(cur, names, tuples[k]).0.Fail?
    ensures InsertFrom(t, names, tuples) == (InsertOne(cur, names, tuples[k]).0, cur)
  {
    var prefix, suffix := tuples[..k], tuples[k..];
    var v, rest := tuples[k], tuples[k + 1..];
    assert tuples == prefix + suffix;
    assert suffix == [v] + rest;
    InsertFromAppend(t, names, prefix, suffix);
    InsertFromAppend(cur, names, [v], rest);
    InsertFromSingle(cur, names, v);
  }

  /** One more tuple through the loop: exactly one `InsertOne` on the table so far. */
  lemma InsertFromStep(t: TableValue, names: seq<string>, tuples: seq<seq<string>>, i: nat, cur: TableValue)
    requires i < |tuples|
    requires InsertFrom(t, names, tuples[..i]) == (Pass, cur)
    ensures InsertFrom(t, names, tuples[..i + 1]) == InsertOne(cur, names, tuples[i])
  {
    var a, v := tuples[..i], tuples[i];
    assert tuples[..i + 1] == a + [v];
    InsertFromAppend(t, names, a, [v]);
    InsertFromSingle(cur, names, v);
  }

  predicate AritiesMatch(names: seq<string>, tuples: seq<seq<string>>)
  {
    forall k :: 0 <= k < |tuples| ==> |tuples[k]| == |names|
  }

  /** The rows a list of tuples turns into, one per tuple, in order. */
  function RowsOf(names: seq<string>, tuples: seq<seq<string>>): seq<Row>
    requires AritiesMatch(names, tuples)
    decreases |tuples|
  {
    if tuples == [] then [] else [MakeRow(names, tuples[0])] + RowsOf(names, tuples[1..])
  }

  /** A successful run appends one row per tuple, in order. */
  lemma {:induction false} InsertFromSuccessRows(t: TableValue, names: seq<string>, tuples: seq<seq<string>>)
    requires InsertFrom(t, names, tuples).0.Pass?
    ensures AritiesMatch(names, tuples)
    ensures InsertFrom(t, names, tuples).1.rows == t.rows + RowsOf(names, tuples)
    decreases |tuples|
  {
    if tuples != [] {
      var step := InsertOne(t, names, tuples[0]);
      assert step.0.Pass?;
      var rest := tuples[1..];
      InsertFromSuccessRows(step.1, names, rest);
      assert AritiesMatch(names, tuples) by {
        forall k | 0 <= k < |tuples| ensures |tuples[k]| == |names| {
          if k > 0 { assert tuples[k] == rest[k - 1]; }
        }
      }
      assert step.1.rows == t.rows + [MakeRow(names, tuples[0])];
    }
  }

  /** A failed run stopped at the tuple right after the rows it appended. */
  lemma {:induction false} InsertFromFailureStopsAt(t: TableValue, names: seq<string>, tuples: seq<seq<string>>)
    requires InsertFrom(t, names, tuples).0.Fail?
    ensures var k := |InsertFrom(t, names, tuples).1.rows| - |t.rows|;
      && k < |tuples|
      && InsertFrom(t, names, tuples[..k]) == (Pass, InsertFrom(t, names, tuples).1)
      && InsertOne(InsertFrom(t, names, tuples).1, names, tuples[k]) == InsertFrom(t, names, tuples)
    decreases |tuples|
  {
    var step := InsertOne(t, names, tuples[0]);
    var result := InsertFrom(t, names, tuples);
    if step.0.Pass? {
      var rest := tuples[1..];
      InsertFromFailureStopsAt(step.1, names, rest);
      assert result == InsertFrom(step.1, names, rest);
      var k := |result.1.rows| - |t.rows|;
      var j := |result.1.rows| - |step.1.rows|;
      assert k == j + 1;
      assert rest[..j] == tuples[..k][1..];
      assert tuples[..k][0] == tuples[0];
      assert rest[j] == tuples[k];
    } else {
      assert result == (step.0, t);
      assert tuples[..0] == [];
    }
  }

  // ---------------------------------------------------------------------
  // process_command, on values.

  /** The CREATE TABLE branch: build the schema, then refuse a taken name. */
  function ExecCreate(stmt: Statement, s: DbState): (r: (Result<string>, DbState))
    requires stmt.CreateTable?
    ensures r.0.Failure? ==> r.1 == s
    ensures CreateQuerySpec(stmt).Failure? ==> r.0 == Failure(CreateQuerySpec(stmt).error)
    ensures CreateQuerySpec(stmt).Success? && stmt.name in s ==> r.0 == Failure(TableAlreadyExists)
    ensures r.0.Success? <==> WellFormed(stmt.columns) && stmt.name !in s
    ensures r.0.Success? ==> r.1 == s[stmt.name := TableValue(stmt.name, ExpectedColumns(stmt.columns), [])]
  {
    CreateQueryMeaning(stmt);
    match CreateQuerySpec(stmt)
    case Failure(e) => (Failure(e), s)
    case Success(q) =>
      if q.tableName in s then (Failure(TableAlreadyExists), s)
      else (Success("CREATE TABLE Statement executed."), s[q.tableName := TableValue(q.tableName, q.columns, [])])
  }

  predicate AllColumnsExist(t: TableValue, names: seq<string>)
  {
    forall i :: 0 <= i < |names| ==> HasColumn(t.columns, names[i])
  }

  /** The INSERT branch: table lookup, column check, then the tuple loop. */
  function ExecInsert(tableName: string, names: seq<string>, tuples: seq<seq<string>>, s: DbState): (r: (Result<string>, DbState))
    ensures r.1.Keys == s.Keys
    ensures forall n :: n in s && n != tableName ==> r.1[n] == s[n]
    ensures forall n :: n in s ==> s[n].rows <= r.1[n].rows
    ensures tableName !in s ==> r == (Failure(TableDoesNotExist), s)
    ensures tableName in s && !AllColumnsExist(s[tableName], names) ==> r == (Failure(ColumnsDoNotExist), s)
    ensures tableName in s && AllColumnsExist(s[tableName], names) ==>
      var (o, t') := InsertFrom(s[tableName], names, tuples);
      r.1 == s[tableName := t'] && (r.0.Success? <==> o.Pass?) && (o.Fail? ==> r.0 == Failure(o.error))
  {
    if tableName !in s then (Failure(TableDoesNotExist), s)
    else if !AllColumnsExist(s[tableName], names) then (Failure(ColumnsDoNotExist), s)
    else
      InsertFromKeepsRows(s[tableName], names, tuples);
      var (o, t') := InsertFrom(s[tableName], names, tuples);
      (if o.Pass? then Success("INSERT Statement executed.") else Failure(o.error), s[tableName := t'])
  }

  /** An INSERT that stops at tuple `i` keeps the rows of the tuples before it. */
  lemma ExecInsertStopsAt(tableName: string, names: seq<string>, tuples: seq<seq<string>>, s: DbState, i: nat, cur: TableValue)
    requires tableName in s && AllColumnsExist(s[tableName], names) && i < |tuples|
    requires InsertFrom(s[tableName], names, tuples[..i]) == (Pass, cur)
    requires InsertOne(cur, names, tuples[i]).0.Fail?
    ensures ExecInsert(tableName, names, tuples, s) ==
      (Failure(InsertOne(cur, names, tuples[i]).0.error), s[tableName := cur])
  {
    InsertFromCommitsPrefix(s[tableName], names, tuples, i, cur);
  }

  /** `process_command` on a parsed statement list and the database's value. */
  function Process(ast: seq<Statement>, s: DbState): (r: (Result<string>, DbState))
    ensures |ast| != 1 ==> r == (Failure(StatementCount(|ast|)), s)
    ensures s.Keys <= r.1.Keys
    ensures forall n :: n in s ==>
      r.1[n].name == s[n].name && r.1[n].columns == s[n].columns && s[n].rows <= r.1[n].rows
  {
    if |ast| != 1 then (Failure(StatementCount(|ast|)), s)
    else
      match ast[0]
      case CreateTable(_, _, _) => ExecCreate(ast[0], s)
      case Insert(tableName, names, tuples) => ExecInsert(tableName, names, tuples, s)
      case Query => (Success("SELECT Statement executed."), s)
      case Delete => (Success("DELETE Statement executed."), s)
      case Other => (Failure(StatementNotSupported), s)
  }

  /** SELECT and DELETE are accepted without effect; every other kind is refused. */
  lemma ProcessNoOps(s: DbState)
    ensures Process([Query], s) == (Success("SELECT Statement executed."), s)
    ensures Process([Delete], s) == (Success("DELETE Statement executed."), s)
    ensures Process([Other], s).0.Failure? && Process([Other], s).0.error.Kind() == NotImplemented
    ensures Process([Other], s).1 == s
  {
  }

  /** A failed statement other than an INSERT leaves the database as it was. */
  lemma ProcessFailureOutsideInsert(ast: seq<Statement>, s: DbState)
    requires !(|ast| == 1 && ast[0].Insert?)
    requires Process(ast, s).0.Failure?
    ensures Process(ast, s).1 == s
  {
  }

  /** An INSERT changes no table but its target, and no table at all when the
      target or one of the named columns is missing. */
  lemma ProcessInsertTouchesOnlyTarget(tableName: string, names: seq<string>, tuples: seq<seq<string>>, s: DbState)
    ensures var r := Process([Insert(tableName, names, tuples)], s);
      && r.1.Keys == s.Keys
      && (forall n :: n in s && n != tableName ==> r.1[n] == s[n])
      && (tableName !in s ==> r == (Failure(TableDoesNotExist), s))
      && (tableName in s && !AllColumnsExist(s[tableName], names) ==> r == (Failure(ColumnsDoNotExist), s))
  {
  }

  /** A multi-row INSERT whose tuple `k` is refused reports that tuple's error
      and keeps exactly the rows of tuples 0..k-1. */
  lemma ProcessInsertCommitsPrefix(tableName: string, names: seq<string>, tuples: seq<seq<string>>, s: DbState, k: nat, before: TableValue)
    requires tableName in s && AllColumnsExist(s[tableName], names)
    requires k < |tuples|
    requires InsertFrom(s[tableName], names, tuples[..k]) == (Pass, before)
    requires InsertOne(before, names, tuples[k]).0.Fail?
    ensures Process([Insert(tableName, names, tuples)], s) ==
      (Failure(InsertOne(before, names, tuples[k]).0.error), s[tableName := before])
  {
    ExecInsertStopsAt(tableName, names, tuples, s, k, before);
  }

  /** A CREATE TABLE under a registered name fails and changes nothing. */
  lemma ProcessCreateConflict(stmt: Statement, s: DbState)
    requires stmt.CreateTable? && stmt.name in s
    ensures Process([stmt], s).0.Failure? && Process([stmt], s).1 == s
  {
  }

  /** A CREATE TABLE repeated verbatim is refused the second time and the
      registered table is kept as it was. */
  lemma RepeatedCreateRejected(table: string, column: string)
    ensures var stmt := CreateTable(table, [ColumnDef(column, Int, [])], []);
      var first := Process([stmt], map[]);
      var second := Process([stmt], first.1);
      && first.0.Success? && table in first.1
      && second == (Failure(TableAlreadyExists), first.1)
  {
    var stmt := CreateTable(table, [ColumnDef(column, Int, [])], []);
    CreateQueryMeaning(stmt);
    assert WellFormed(stmt.columns);
  }

  function UsersDecls(): seq<ColumnDef>
  {
    [ColumnDef("id", Int, [Unique(true)]), ColumnDef("name", Text, [])]
  }

  function UsersColumns(): seq<ParsedColumn>
  {
    [ParsedColumn("id", "Integer", true, true, true), ParsedColumn("name", "Text", false, false, false)]
  }

  lemma UsersCreated(table: string)
    ensures Process([CreateTable(table, UsersDecls(), [])], map[]) ==
      (Success("CREATE TABLE Statement executed."), map[table := TableValue(table, UsersColumns(), [])])
  {
    var decls := UsersDecls();
    CreateQueryMeaning(CreateTable(table, decls, []));
    assert Unique(true) in decls[0].options && decls[0].options[0].Unique? && decls[1].options == [];
    assert WellFormed(decls);
    assert ExpectedColumns(decls) == UsersColumns();
  }

  lemma UsersFirstInsert(table: string, id: string, a: string)
    ensures var t0 := TableValue(table, UsersColumns(), []);
      Process([Insert(table, ["id", "name"], [[id, a]])], map[table := t0]) ==
        (Success("INSERT Statement executed."), map[table := t0.(rows := [map["id" := id, "name" := a]])])
  {
    var t0 := TableValue(table, UsersColumns(), []);
    var names := ["id", "name"];
    assert AllColumnsExist(t0, names) by {
      assert t0.columns[0].name == names[0] && t0.columns[1].name == names[1];
    }
    var row := MakeRow(names, [id, a]);
    assert row == map["id" := id, "name" := a];
    var t1 := t0.(rows := [row]);
    assert forall i :: 0 <= i < |names| ==> !Violates(t0, names[i], [id, a][i]);
    assert UniqueCheck(t0, names, [id, a]) == Clear;
    assert t0.rows + [row] == [row];
    assert InsertOne(t0, names, [id, a]) == (Pass, t1);
    var tuples := [[id, a]];
    assert tuples[1..] == [];
    assert InsertFrom(t1, names, []) == (Pass, t1);
    assert InsertFrom(t0, names, tuples) == (Pass, t1);
    var s := map[table := t0];
    assert ExecInsert(table, names, tuples, s) == (Success("INSERT Statement executed."), s[table := t1]);
    assert s[table := t1] == map[table := t1];
  }

  lemma UsersSecondInsert(table: string, id: string, a: string, b: string)
    ensures var t1 := TableValue(table, UsersColumns(), [map["id" := id, "name" := a]]);
      Process([Insert(table, ["id", "name"], [[id, b]])], map[table := t1]) ==
        (Failure(UniqueViolation("id")), map[table := t1])
  {
    var t1 := TableValue(table, UsersColumns(), [map["id" := id, "name" := a]]);
    var names := ["id", "name"];
    assert AllColumnsExist(t1, names) by {
      assert t1.columns[0].name == names[0] && t1.columns[1].name == names[1];
    }
    assert Violates(t1, "id", id) by {
      assert t1.columns[0].name == "id" && t1.columns[0].isUnique;
      assert "id" in t1.rows[0] && t1.rows[0]["id"] == id;
    }
    assert UniqueCheck(t1, names, [id, b]) == Clash("id");
    assert InsertOne(t1, names, [id, b]) == (Fail(UniqueViolation("id")), t1);
    var tuples := [[id, b]];
    assert InsertFrom(t1, names, tuples) == (Fail(UniqueViolation("id")), t1);
    var s := map[table := t1];
    assert ExecInsert(table, names, tuples, s) == (Failure(UniqueViolation("id")), s[table := t1]);
    assert s[table := t1] == s;
  }

  /** CREATE TABLE (id INT PRIMARY KEY, name TEXT), then two INSERTs with the
      same id: the second one is refused and the table keeps exactly the first row. */
  lemma DuplicatePrimaryKeyRejected(table: string, id: string, a: string, b: string)
    ensures var created := Process([CreateTable(table, UsersDecls(), [])], map[]);
      var first := Process([Insert(table, ["id", "name"], [[id, a]])], created.1);
      var second := Process([Insert(table, ["id", "name"], [[id, b]])], first.1);
      && created.0.Success? && first.0.Success?
      && second == (Failure(UniqueViolation("id")), first.1)
      && second.1[table].rows == [map["id" := id, "name" := a]]
  {
    UsersCreated(table);
    UsersFirstInsert(table, id, a);
    UsersSecondInsert(table, id, a, b);
  }

  // ---------------------------------------------------------------------
  // process_command on the live database.

  /** The CREATE TABLE branch of `process_command`. */
  method CreateTableInto(query: Statement, db: Database) returns (r: Result<string>)
    requires query.CreateTable? && db.Valid()
    modifies db
    ensures db.Valid() && db.dbName == old(db.dbName)
    ensures (r, db.State()) == ExecCreate(query, old(db.State()))
  {
    var createQuery := NewCreateQuery(query);
    match createQuery {
      case Failure(err) =>
        return Failure(err);
      case Success(payload) =>
        var tableName := payload.tableName;
        if db.ContainsTable(tableName) {
          return Failure(TableAlreadyExists);
        }
        ghost var s0 := db.State();
        var table := new Table(payload);
        db.tables := db.tables[tableName := table];
        r := Success("CREATE TABLE Statement executed.");
        assert db.State() == s0[tableName := table.Value()] by {
          forall n | n in db.tables ensures db.State()[n] == s0[tableName := table.Value()][n] {
          }
        }
    }
  }

  /** The INSERT branch of `process_command`: the lookups, then the tuple
      loop, which returns at the first refused tuple. */
  method InsertInto(tableName: string, columns: seq<string>, values: seq<seq<string>>, db: Database)
    returns (r: Result<string>)
    requires db.Valid()
    modifies db.tables.Values
    ensures (r, db.State()) == ExecInsert(tableName, columns, values, old(db.State()))
  {
    if !db.ContainsTable(tableName) {
      return Failure(TableDoesNotExist);
    }
    var dbTable := db.GetTableMut(tableName).value;
    if !(forall i :: 0 <= i < |columns| ==> dbTable.ContainsColumn(columns[i])) {
      return Failure(ColumnsDoNotExist);
    }
    ghost var s0 := db.State();
    ghost var t0 := dbTable.Value();
    assert AllColumnsExist(s0[tableName], columns);
    for i := 0 to |values|
      invariant InsertFrom(t0, columns, values[..i]) == (Pass, dbTable.Value())
      invariant forall n :: n in db.tables && n != tableName ==> db.tables[n].Value() == s0[n]
    {
      var value := values[i];
      ghost var cur := dbTable.Value();
      InsertFromStep(t0, columns, values, i, cur);
      if |columns| != |value| {
        ExecInsertStopsAt(tableName, columns, values, s0, i, cur);
        db.StateAfterUpdate(tableName, s0);
        return Failure(ValueCountMismatch(|value|, |columns|));
      }
      match dbTable.ValidateUniqueConstraint(columns, value) {
        case Clear =>
          dbTable.InsertRow(columns, value);
        case Clash(column) =>
          ExecInsertStopsAt(tableName, columns, values, s0, i, cur);
          db.StateAfterUpdate(tableName, s0);
          return Failure(UniqueViolation(column));
      }
    }
    assert values[..|values|] == values;
    db.StateAfterUpdate(tableName, s0);
    r := Success("INSERT Statement executed.");
  }

  /** `process_command`: runs one parsed statement against `db`. */
  method ProcessCommand(ast: seq<Statement>, db: Database) returns (r: Result<string>)
    requires db.Valid()
    modifies db, db.tables.Values
    ensures db.Valid() && db.dbName == old(db.dbName)
    ensures (r, db.State()) == Process(ast, old(db.State()))
  {
    if |ast| > 1 || |ast| == 0 {
      return Failure(StatementCount(|ast|));
    }
    var query := ast[0];
    match query
    case CreateTable(_, _, _) =>
      r := CreateTableInto(query, db);
    case Insert(tableName, columns, values) =>
      r := InsertInto(tableName, columns, values, db);
    case Query =>
      r := Success("SELECT Statement executed.");
    case Delete =>
      r := Success("DELETE Statement executed.");
    case Other =>
      r := Failure(StatementNotSupported);
  }
}
