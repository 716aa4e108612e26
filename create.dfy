/** The schema builder: `CreateQuery::new` turns a parsed CREATE TABLE
    statement into the ordered list of typed, constrained columns. */
module Create {
  import opened Errors
  import opened Ast

  /** One column of a table under construction (`ParsedColumn`). */
  datatype ParsedColumn = ParsedColumn(
    name: string,
    typeName: string,
    isPk: bool,
    notNull: bool,
    isUnique: bool)

  /** A CREATE TABLE statement broken down into its name and columns. */
  datatype CreateQuery = CreateQuery(tableName: string, columns: seq<ParsedColumn>)

  /** The flags the option loop of one column accumulates. */
  datatype Flags = Flags(isPk: bool, isUnique: bool, notNull: bool)

  /** Maps a declared SQL type onto the fixed set of logical type names. */
  function TypeName(dt: DataType): (name: string)
    ensures name in {"Integer", "Bool", "Text", "Real", "Invalid"}
  {
    match dt
    case SmallInt => "Integer"
    case Int => "Integer"
    case BigInt => "Integer"
    case Boolean => "Bool"
    case Text => "Text"
    case Varchar => "Text"
    case Real => "Real"
    case Float => "Real"
    case Double => "Real"
    case Decimal => "Real"
    case OtherType => "Invalid"
  }

  /** Which declared types land on which logical type. */
  lemma TypeNameFamilies(dt: DataType)
    ensures TypeName(dt) == "Integer" <==> dt in {SmallInt, Int, BigInt}
    ensures TypeName(dt) == "Bool" <==> dt == Boolean
    ensures TypeName(dt) == "Text" <==> dt in {Text, Varchar}
    ensures TypeName(dt) == "Real" <==> dt in {Real, Float, Double, Decimal}
    ensures TypeName(dt) == "Invalid" <==> dt == OtherType
  {
  }

  /** Only columns of these types may carry UNIQUE or PRIMARY KEY. */
  predicate Keyable(typeName: string)
  {
    typeName != "Real" && typeName != "Bool"
  }

  predicate NameTaken(done: seq<ParsedColumn>, name: string)
  {
    exists j :: 0 <= j < |done| && done[j].name == name
  }

  predicate AnyPk(done: seq<ParsedColumn>)
  {
    exists j :: 0 <= j < |done| && done[j].isPk
  }

  /** One iteration of the option loop. `earlierPk` says whether a column
      built before this one is already the primary key. */
  function ApplyOption(typeName: string, f: Flags, opt: ColumnOption, earlierPk: bool, table: string): Result<Flags>
  {
    match opt
    case Unique(isPrimary) =>
      if Keyable(typeName) then
        if isPrimary && earlierPk then Failure(MultiplePrimaryKeys(table))
        else Success(Flags(isPrimary, true, f.notNull || isPrimary))
      else Success(f)
    case NotNull => Success(f.(notNull := true))
    case OtherOption => Success(f)
  }

  /** The option loop over `opts`, left to right, stopping at the first error. */
  function ResolveOptions(typeName: string, opts: seq<ColumnOption>, earlierPk: bool, table: string): Result<Flags>
    decreases |opts|
  {
    if opts == [] then Success(Flags(false, false, false))
    else
      match ResolveOptions(typeName, opts[..|opts| - 1], earlierPk, table)
      case Failure(e) => Failure(e)
      case Success(f) => ApplyOption(typeName, f, opts[|opts| - 1], earlierPk, table)
  }

  /** One iteration of the column loop: the duplicate-name check, the type
      mapping and the option loop, then the push. */
  function AddColumn(done: seq<ParsedColumn>, c: ColumnDef, table: string): Result<seq<ParsedColumn>>
  {
    if NameTaken(done, c.name) then Failure(DuplicateColumn(c.name))
    else
      var typeName := TypeName(c.dataType);
      match ResolveOptions(typeName, c.options, AnyPk(done), table)
      case Failure(e) => Failure(e)
      case Success(f) => Success(done + [ParsedColumn(c.name, typeName, f.isPk, f.notNull, f.isUnique)])
  }

  /** The column loop over `cols`, left to right, stopping at the first error. */
  function BuildColumns(cols: seq<ColumnDef>, table: string): (r: Result<seq<ParsedColumn>>)
    ensures r.Success? ==> |r.value| == |cols|
    ensures r.Success? ==> forall i :: 0 <= i < |cols| ==> r.value[i].name == cols[i].name
    decreases |cols|
  {
    if cols == [] then Success([])
    else
      match BuildColumns(cols[..|cols| - 1], table)
      case Failure(e) => Failure(e)
      case Success(done) => AddColumn(done, cols[|cols| - 1], table)
  }

  // ---------------------------------------------------------------------
  // Reference definitions: what each column's flags should be, stated
  // without the loop.

  predicate HasUnique(opts: seq<ColumnOption>)
  {
    exists i :: 0 <= i < |opts| && opts[i].Unique?
  }

  predicate HasPrimary(opts: seq<ColumnOption>)
  {
    Unique(true) in opts
  }

  /** The `is_primary` flag of the last UNIQUE / PRIMARY KEY option, false if none. */
  function LastUniqueIsPrimary(opts: seq<ColumnOption>): bool
    decreases |opts|
  {
    if opts == [] then false
    else if opts[|opts| - 1].Unique? then opts[|opts| - 1].isPrimary
    else LastUniqueIsPrimary(opts[..|opts| - 1])
  }

  function ExpectedFlags(typeName: string, opts: seq<ColumnOption>): Flags
  {
    Flags(
      Keyable(typeName) && LastUniqueIsPrimary(opts),
      Keyable(typeName) && HasUnique(opts),
      NotNull in opts || (Keyable(typeName) && HasPrimary(opts)))
  }

  function ExpectedColumn(c: ColumnDef): ParsedColumn
  {
    var typeName := TypeName(c.dataType);
    var f := ExpectedFlags(typeName, c.options);
    ParsedColumn(c.name, typeName, f.isPk, f.notNull, f.isUnique)
  }

  function ExpectedColumns(cols: seq<ColumnDef>): seq<ParsedColumn>
  {
    seq(|cols|, i requires 0 <= i < |cols| => ExpectedColumn(cols[i]))
  }

  /** The column carries a PRIMARY KEY option that its type lets take effect. */
  predicate DeclaresPrimary(c: ColumnDef)
  {
    Keyable(TypeName(c.dataType)) && HasPrimary(c.options)
  }

  predicate DistinctNames(cols: seq<ColumnDef>)
  {
    forall i, j :: 0 <= i < j < |cols| ==> cols[i].name != cols[j].name
  }

  /** No column declares a primary key after one that became the primary key. */
  predicate NoPrimaryAfterPrimary(cols: seq<ColumnDef>)
  {
    forall i, j :: 0 <= i < j < |cols| && ExpectedColumn(cols[i]).isPk ==> !DeclaresPrimary(cols[j])
  }

  /** The declarations the schema builder accepts: distinct names, and no
      PRIMARY KEY option after a column that ended up as the primary key. */
  predicate WellFormed(cols: seq<ColumnDef>)
  {
    DistinctNames(cols) && NoPrimaryAfterPrimary(cols)
  }

  // ---------------------------------------------------------------------
  // The option loop and the column loop against the reference definitions.

  lemma {:induction false} ResolveOptionsMeaning(typeName: string, opts: seq<ColumnOption>, earlierPk: bool, table: string)
    ensures ResolveOptions(typeName, opts, earlierPk, table) ==
      if Keyable(typeName) && earlierPk && HasPrimary(opts) then Failure(MultiplePrimaryKeys(table))
      else Success(ExpectedFlags(typeName, opts))
    decreases |opts|
  {
    if opts != [] {
      var p, o := opts[..|opts| - 1], opts[|opts| - 1];
      assert opts == p + [o];
      ResolveOptionsMeaning(typeName, p, earlierPk, table);
      assert HasPrimary(opts) <==> HasPrimary(p) || o == Unique(true);
      assert NotNull in opts <==> NotNull in p || o == NotNull;
      assert HasUnique(opts) <==> HasUnique(p) || o.Unique? by {
        if o.Unique? { assert opts[|opts| - 1].Unique?; }
        if HasUnique(p) { var i :| 0 <= i < |p| && p[i].Unique?; assert opts[i].Unique?; }
      }
    }
  }

  lemma DistinctNamesSnoc(p: seq<ColumnDef>, c: ColumnDef)
    ensures DistinctNames(p + [c]) <==>
      DistinctNames(p) && forall i :: 0 <= i < |p| ==> p[i].name != c.name
  {
    var cols := p + [c];
    assert forall i :: 0 <= i < |p| ==> cols[i] == p[i];
    assert cols[|p|] == c;
  }

  lemma NoPrimaryAfterPrimarySnoc(p: seq<ColumnDef>, c: ColumnDef)
    ensures NoPrimaryAfterPrimary(p + [c]) <==>
      NoPrimaryAfterPrimary(p) && forall i :: 0 <= i < |p| && ExpectedColumn(p[i]).isPk ==> !DeclaresPrimary(c)
  {
    var cols := p + [c];
    assert forall i :: 0 <= i < |p| ==> cols[i] == p[i];
    assert cols[|p|] == c;
  }

  lemma WellFormedSnoc(p: seq<ColumnDef>, c: ColumnDef)
    ensures WellFormed(p + [c]) <==>
      && WellFormed(p)
      && (forall i :: 0 <= i < |p| ==> p[i].name != c.name)
      && (forall i :: 0 <= i < |p| && ExpectedColumn(p[i]).isPk ==> !DeclaresPrimary(c))
  {
    DistinctNamesSnoc(p, c);
    NoPrimaryAfterPrimarySnoc(p, c);
  }

  lemma ExpectedNameTaken(p: seq<ColumnDef>, name: string)
    ensures NameTaken(ExpectedColumns(p), name) <==> exists i :: 0 <= i < |p| && p[i].name == name
  {
    var done := ExpectedColumns(p);
    if NameTaken(done, name) {
      var j :| 0 <= j < |done| && done[j].name == name;
      assert p[j].name == name;
    }
    if exists i :: 0 <= i < |p| && p[i].name == name {
      var i :| 0 <= i < |p| && p[i].name == name;
      assert done[i].name == name;
    }
  }

  lemma ExpectedAnyPk(p: seq<ColumnDef>)
    ensures AnyPk(ExpectedColumns(p)) <==> exists i :: 0 <= i < |p| && ExpectedColumn(p[i]).isPk
  {
    var done := ExpectedColumns(p);
    if AnyPk(done) {
      var j :| 0 <= j < |done| && done[j].isPk;
      assert ExpectedColumn(p[j]).isPk;
    }
    if exists i :: 0 <= i < |p| && ExpectedColumn(p[i]).isPk {
      var i :| 0 <= i < |p| && ExpectedColumn(p[i]).isPk;
      assert done[i].isPk;
    }
  }

  /** One step of the column loop, from the expected columns of a well-formed prefix. */
  lemma AddColumnMeaning(p: seq<ColumnDef>, c: ColumnDef, table: string)
    requires WellFormed(p)
    ensures AddColumn(ExpectedColumns(p), c, table).Success? <==> WellFormed(p + [c])
    ensures AddColumn(ExpectedColumns(p), c, table).Success? ==>
      AddColumn(ExpectedColumns(p), c, table).value == ExpectedColumns(p + [c])
  {
    var done := ExpectedColumns(p);
    var r := AddColumn(done, c, table);
    WellFormedSnoc(p, c);
    ExpectedNameTaken(p, c.name);
    if !NameTaken(done, c.name) {
      var typeName := TypeName(c.dataType);
      var earlierPk := AnyPk(done);
      ExpectedAnyPk(p);
      ResolveOptionsMeaning(typeName, c.options, earlierPk, table);
      if Keyable(typeName) && earlierPk && HasPrimary(c.options) {
        assert r.Failure?;
        var i :| 0 <= i < |p| && ExpectedColumn(p[i]).isPk;
        assert DeclaresPrimary(c);
      } else {
        var f := ExpectedFlags(typeName, c.options);
        assert r == Success(done + [ParsedColumn(c.name, typeName, f.isPk, f.notNull, f.isUnique)]);
        assert ExpectedColumns(p + [c]) == done + [ExpectedColumn(c)];
      }
    }
  }

  lemma {:induction false} BuildColumnsMeaning(cols: seq<ColumnDef>, table: string)
    ensures BuildColumns(cols, table).Success? <==> WellFormed(cols)
    ensures BuildColumns(cols, table).Success? ==> BuildColumns(cols, table).value == ExpectedColumns(cols)
    decreases |cols|
  {
    if cols != [] {
      var p, c := cols[..|cols| - 1], cols[|cols| - 1];
      assert cols == p + [c];
      BuildColumnsMeaning(p, table);
      WellFormedSnoc(p, c);
      if BuildColumns(p, table).Success? {
        AddColumnMeaning(p, c, table);
      }
    }
  }

  /** One more option through the option loop. */
  lemma ResolveOptionsStep(typeName: string, opts: seq<ColumnOption>, k: nat, earlierPk: bool, table: string, f: Flags)
    requires k < |opts|
    requires ResolveOptions(typeName, opts[..k], earlierPk, table) == Success(f)
    ensures ResolveOptions(typeName, opts[..k + 1], earlierPk, table) == ApplyOption(typeName, f, opts[k], earlierPk, table)
  {
    assert opts[..k + 1][..k] == opts[..k];
  }

  /** One more column through the column loop. */
  lemma BuildColumnsStep(cols: seq<ColumnDef>, i: nat, table: string, done: seq<ParsedColumn>)
    requires i < |cols|
    requires BuildColumns(cols[..i], table) == Success(done)
    ensures BuildColumns(cols[..i + 1], table) == AddColumn(done, cols[i], table)
  {
    assert cols[..i + 1][..i] == cols[..i];
  }

  /** The push at the end of a column whose options resolved to `f`. */
  lemma AddColumnPush(done: seq<ParsedColumn>, c: ColumnDef, table: string, f: Flags)
    requires !NameTaken(done, c.name)
    requires ResolveOptions(TypeName(c.dataType), c.options, AnyPk(done), table) == Success(f)
    ensures AddColumn(done, c, table) == Success(done + [ParsedColumn(c.name, TypeName(c.dataType), f.isPk, f.notNull, f.isUnique)])
  {
  }

  /** The column loop stops at the first column whose step fails. */
  lemma BuildColumnsFailsAt(cols: seq<ColumnDef>, i: nat, table: string, done: seq<ParsedColumn>)
    requires i < |cols|
    requires BuildColumns(cols[..i], table) == Success(done)
    requires AddColumn(done, cols[i], table).Failure?
    ensures BuildColumns(cols, table) == AddColumn(done, cols[i], table)
  {
    BuildColumnsStep(cols, i, table, done);
    BuildColumnsFailurePersists(cols, i + 1, table);
  }

  /** A column whose option `k` is refused fails with the second-primary-key error. */
  lemma AddColumnFailsInOptions(done: seq<ParsedColumn>, c: ColumnDef, table: string, k: nat, f: Flags)
    requires !NameTaken(done, c.name) && k < |c.options|
    requires ResolveOptions(TypeName(c.dataType), c.options[..k], AnyPk(done), table) == Success(f)
    requires ApplyOption(TypeName(c.dataType), f, c.options[k], AnyPk(done), table).Failure?
    ensures AddColumn(done, c, table) == Failure(MultiplePrimaryKeys(table))
  {
    var typeName := TypeName(c.dataType);
    ResolveOptionsStep(typeName, c.options, k, AnyPk(done), table, f);
    ResolveOptionsFailurePersists(typeName, c.options, k + 1, AnyPk(done), table);
  }

  lemma {:induction false} BuildColumnsFailurePersists(cols: seq<ColumnDef>, k: nat, table: string)
    requires k <= |cols|
    requires BuildColumns(cols[..k], table).Failure?
    ensures BuildColumns(cols, table) == BuildColumns(cols[..k], table)
    decreases |cols|
  {
    if k < |cols| {
      var p := cols[..|cols| - 1];
      assert p[..k] == cols[..k];
      BuildColumnsFailurePersists(p, k, table);
    } else {
      assert cols[..k] == cols;
    }
  }

  lemma {:induction false} ResolveOptionsFailurePersists(typeName: string, opts: seq<ColumnOption>, k: nat, earlierPk: bool, table: string)
    requires k <= |opts|
    requires ResolveOptions(typeName, opts[..k], earlierPk, table).Failure?
    ensures ResolveOptions(typeName, opts, earlierPk, table) == ResolveOptions(typeName, opts[..k], earlierPk, table)
    decreases |opts|
  {
    if k < |opts| {
      var p := opts[..|opts| - 1];
      assert p[..k] == opts[..k];
      ResolveOptionsFailurePersists(typeName, p, k, earlierPk, table);
    } else {
      assert opts[..k] == opts;
    }
  }

  /** `CreateQuery::new`, as a specification: the result the statement must produce. */
  function CreateQuerySpec(stmt: Statement): Result<CreateQuery>
  {
    if stmt.CreateTable? then
      match BuildColumns(stmt.columns, stmt.name)
      case Failure(e) => Failure(e)
      case Success(cs) => Success(CreateQuery(stmt.name, cs))
    else Failure(NotACreateStatement)
  }

  /** The schema builder accepts exactly the well-formed declarations, and
      then yields the expected column of each declaration, in order. */
  lemma CreateQueryMeaning(stmt: Statement)
    ensures !stmt.CreateTable? ==> CreateQuerySpec(stmt) == Failure(NotACreateStatement)
    ensures CreateQuerySpec(stmt).Success? <==> stmt.CreateTable? && WellFormed(stmt.columns)
    ensures CreateQuerySpec(stmt).Success? ==>
      CreateQuerySpec(stmt).value == CreateQuery(stmt.name, ExpectedColumns(stmt.columns))
  {
    if stmt.CreateTable? {
      BuildColumnsMeaning(stmt.columns, stmt.name);
    }
  }

  /** The error of a column that breaks well-formedness: its name when it
      repeats an earlier column's name, else the table's second primary key. */
  function ColumnError(cols: seq<ColumnDef>, j: nat, table: string): Error
    requires j < |cols|
  {
    if exists i :: 0 <= i < j && cols[i].name == cols[j].name then DuplicateColumn(cols[j].name)
    else MultiplePrimaryKeys(table)
  }

  /** Column `j` is the first one that breaks well-formedness. */
  predicate FirstBadColumn(cols: seq<ColumnDef>, j: nat)
  {
    j < |cols| && WellFormed(cols[..j]) && !WellFormed(cols[..j + 1])
  }

  /** A refused column loop failed at the first column that breaks
      well-formedness, with that column's error. */
  lemma {:induction false} BuildColumnsError(cols: seq<ColumnDef>, table: string)
    requires BuildColumns(cols, table).Failure?
    ensures exists j: nat :: FirstBadColumn(cols, j) && BuildColumns(cols, table).error == ColumnError(cols, j, table)
    decreases |cols|
  {
    var n := |cols|;
    var p := cols[..n - 1];
    if BuildColumns(p, table).Failure? {
      BuildColumnsError(p, table);
      var j: nat :| FirstBadColumn(p, j) && BuildColumns(p, table).error == ColumnError(p, j, table);
      BadColumnInPrefix(cols, j, table);
    } else {
      LastColumnError(cols, table);
    }
  }

  /** A bad column of all but the last column is a bad column of them all. */
  lemma BadColumnInPrefix(cols: seq<ColumnDef>, j: nat, table: string)
    requires cols != [] && FirstBadColumn(cols[..|cols| - 1], j)
    requires BuildColumns(cols[..|cols| - 1], table).Failure?
    requires BuildColumns(cols[..|cols| - 1], table).error == ColumnError(cols[..|cols| - 1], j, table)
    ensures FirstBadColumn(cols, j) && BuildColumns(cols, table).error == ColumnError(cols, j, table)
  {
    var p := cols[..|cols| - 1];
    assert cols[..j] == p[..j] && cols[..j + 1] == p[..j + 1] && cols[j] == p[j];
    assert forall i :: 0 <= i < j ==> cols[i] == p[i];
    assert ColumnError(cols, j, table) == ColumnError(p, j, table);
  }

  /** When all but the last column pass, the last column is the bad one. */
  lemma LastColumnError(cols: seq<ColumnDef>, table: string)
    requires cols != [] && BuildColumns(cols, table).Failure?
    requires BuildColumns(cols[..|cols| - 1], table).Success?
    ensures FirstBadColumn(cols, |cols| - 1) && BuildColumns(cols, table).error == ColumnError(cols, |cols| - 1, table)
  {
    var n := |cols|;
    var p, c := cols[..n - 1], cols[n - 1];
    BuildColumnsMeaning(cols, table);
    BuildColumnsMeaning(p, table);
    assert cols[..n] == cols;
    var done := ExpectedColumns(p);
    assert BuildColumns(cols, table) == AddColumn(done, c, table);
    ExpectedNameTaken(p, c.name);
    assert (exists i :: 0 <= i < n - 1 && cols[i].name == c.name) <==> NameTaken(done, c.name) by {
      assert forall i :: 0 <= i < n - 1 ==> cols[i] == p[i];
    }
    if !NameTaken(done, c.name) {
      ResolveOptionsMeaning(TypeName(c.dataType), c.options, AnyPk(done), table);
    }
  }

  /** A refused CREATE TABLE reports the first column that broke it: a
      repeated name, or a second primary key. */
  lemma CreateRefusalError(stmt: Statement)
    requires stmt.CreateTable? && CreateQuerySpec(stmt).Failure?
    ensures exists j: nat ::
              FirstBadColumn(stmt.columns, j) && CreateQuerySpec(stmt).error == ColumnError(stmt.columns, j, stmt.name)
  {
    BuildColumnsError(stmt.columns, stmt.name);
  }

  // ---------------------------------------------------------------------
  // Properties of the schema builder.

  lemma {:induction false} LastUniqueIsPrimaryDeclared(opts: seq<ColumnOption>)
    ensures LastUniqueIsPrimary(opts) ==> HasPrimary(opts)
    decreases |opts|
  {
    if opts != [] && !opts[|opts| - 1].Unique? {
      var p := opts[..|opts| - 1];
      LastUniqueIsPrimaryDeclared(p);
      if HasPrimary(p) {
        var i :| 0 <= i < |p| && p[i] == Unique(true);
        assert opts[i] == Unique(true);
      }
    }
  }

  /** A column that ends up as the primary key declared one that took effect. */
  lemma PrimaryColumnDeclared(c: ColumnDef)
    ensures ExpectedColumn(c).isPk ==> DeclaresPrimary(c)
  {
    LastUniqueIsPrimaryDeclared(c.options);
  }

  /** The output has the declared columns' names and mapped types, in declaration order. */
  lemma CreateKeepsDeclarationOrder(stmt: Statement)
    requires CreateQuerySpec(stmt).Success?
    ensures var q := CreateQuerySpec(stmt).value;
      && q.tableName == stmt.name
      && |q.columns| == |stmt.columns|
      && forall i :: 0 <= i < |q.columns| ==>
           q.columns[i].name == stmt.columns[i].name && q.columns[i].typeName == TypeName(stmt.columns[i].dataType)
  {
    CreateQueryMeaning(stmt);
  }

  /** A name declared twice makes the call fail, so accepted tables have distinct column names. */
  lemma CreateRejectsDuplicateName(stmt: Statement, i: nat, j: nat)
    requires stmt.CreateTable? && i < j < |stmt.columns|
    requires stmt.columns[i].name == stmt.columns[j].name
    ensures CreateQuerySpec(stmt).Failure?
  {
    CreateQueryMeaning(stmt);
  }

  /** At most one output column is the primary key. */
  lemma CreateAtMostOnePrimaryKey(stmt: Statement)
    requires CreateQuerySpec(stmt).Success?
    ensures var cols := CreateQuerySpec(stmt).value.columns;
      forall i, j :: 0 <= i < |cols| && 0 <= j < |cols| && cols[i].isPk && cols[j].isPk ==> i == j
  {
    CreateQueryMeaning(stmt);
    var decls := stmt.columns;
    var cols := CreateQuerySpec(stmt).value.columns;
    forall i, j | 0 <= i < |cols| && 0 <= j < |cols| && cols[i].isPk && cols[j].isPk ensures i == j {
      assert cols[i] == ExpectedColumn(decls[i]) && cols[j] == ExpectedColumn(decls[j]);
      PrimaryColumnDeclared(decls[i]);
      PrimaryColumnDeclared(decls[j]);
    }
  }

  /** A second column whose last key option is PRIMARY KEY, on a type that can be
      keyed, makes the call fail. */
  lemma CreateRejectsSecondPrimaryKey(stmt: Statement, i: nat, j: nat)
    requires stmt.CreateTable? && i < j < |stmt.columns|
    requires ExpectedColumn(stmt.columns[i]).isPk
    requires Keyable(TypeName(stmt.columns[j].dataType)) && Unique(true) in stmt.columns[j].options
    ensures CreateQuerySpec(stmt).Failure?
  {
    CreateQueryMeaning(stmt);
  }

  /** Distinct names and at most one column declaring a primary key that takes
      effect: the schema builder accepts the statement. */
  lemma CreateAcceptsValidDeclarations(stmt: Statement)
    requires stmt.CreateTable?
    requires forall i, j :: 0 <= i < j < |stmt.columns| ==> stmt.columns[i].name != stmt.columns[j].name
    requires forall i, j :: 0 <= i < j < |stmt.columns| ==> !(DeclaresPrimary(stmt.columns[i]) && DeclaresPrimary(stmt.columns[j]))
    ensures CreateQuerySpec(stmt).Success?
  {
    CreateQueryMeaning(stmt);
    forall i | 0 <= i < |stmt.columns| {
      PrimaryColumnDeclared(stmt.columns[i]);
    }
  }

  /** Each output column keeps `is_pk ==> not_null && is_unique`, and Real or Bool
      columns are never keyed. */
  lemma CreateColumnFlags(stmt: Statement)
    requires CreateQuerySpec(stmt).Success?
    ensures forall c :: c in CreateQuerySpec(stmt).value.columns ==> (c.isPk ==> c.notNull && c.isUnique)
    ensures forall c :: c in CreateQuerySpec(stmt).value.columns && c.typeName in {"Real", "Bool"} ==>
      !c.isPk && !c.isUnique
  {
    CreateQueryMeaning(stmt);
    var cols := CreateQuerySpec(stmt).value.columns;
    forall c | c in cols ensures c.isPk ==> c.notNull && c.isUnique {
      var i :| 0 <= i < |cols| && cols[i] == c;
      var opts := stmt.columns[i].options;
      LastUniqueIsPrimaryDeclared(opts);
      if c.isPk {
        var k :| 0 <= k < |opts| && opts[k] == Unique(true);
        assert opts[k].Unique?;
      }
    }
  }

  /** NOT NULL takes effect on a column of any type. */
  lemma CreateHonoursNotNull(stmt: Statement, i: nat)
    requires CreateQuerySpec(stmt).Success? && i < |stmt.columns|
    requires NotNull in stmt.columns[i].options
    ensures CreateQuerySpec(stmt).value.columns[i].notNull
  {
    CreateQueryMeaning(stmt);
  }

  /** The last key option wins: PRIMARY KEY followed by UNIQUE on the same
      column leaves it unique and not null, but not the primary key. */
  lemma UniqueAfterPrimaryKeyClearsPk(table: string, column: string, dt: DataType)
    requires Keyable(TypeName(dt))
    ensures var stmt := CreateTable(table, [ColumnDef(column, dt, [Unique(true), Unique(false)])], []);
      CreateQuerySpec(stmt) == Success(CreateQuery(table, [ParsedColumn(column, TypeName(dt), false, true, true)]))
  {
    var opts := [Unique(true), Unique(false)];
    var stmt := CreateTable(table, [ColumnDef(column, dt, opts)], []);
    CreateQueryMeaning(stmt);
    assert opts[0] == Unique(true) && opts[1].Unique? && NotNull !in opts;
    assert ExpectedColumns(stmt.columns) == [ExpectedColumn(stmt.columns[0])];
  }

  /** Table-level constraints do not affect the result: the model drops them,
      as the source only prints them (create.rs lines 123-127). */
  lemma CreateIgnoresConstraints(table: string, columns: seq<ColumnDef>, constraints: seq<TableConstraint>)
    ensures CreateQuerySpec(CreateTable(table, columns, constraints)) == CreateQuerySpec(CreateTable(table, columns, []))
  {
  }

  /** `CreateQuery::new`: the column loop with its inner option loop. */
  method NewCreateQuery(stmt: Statement) returns (r: Result<CreateQuery>)
    ensures r == CreateQuerySpec(stmt)
  {
    if !stmt.CreateTable? {
      return Failure(NotACreateStatement);
    }
    var tableName, columns := stmt.name, stmt.columns;
    var parsed: seq<ParsedColumn> := [];
    for i := 0 to |columns|
      invariant BuildColumns(columns[..i], tableName) == Success(parsed)
    {
      var col := columns[i];
      var name := col.name;
      if NameTaken(parsed, name) {
        BuildColumnsFailsAt(columns, i, tableName, parsed);
        return Failure(DuplicateColumn(name));
      }
      var typeName := TypeName(col.dataType);
      ghost var earlierPk := AnyPk(parsed);
      var isPk, isUnique, notNull := false, false, false;
      for k := 0 to |col.options|
        invariant ResolveOptions(typeName, col.options[..k], earlierPk, tableName) == Success(Flags(isPk, isUnique, notNull))
      {
        ghost var f := Flags(isPk, isUnique, notNull);
        ResolveOptionsStep(typeName, col.options, k, earlierPk, tableName, f);
        match col.options[k]
        case Unique(isPrimary) =>
          if Keyable(typeName) {
            isPk := isPrimary;
            if isPrimary {
              if AnyPk(parsed) {
                AddColumnFailsInOptions(parsed, col, tableName, k, f);
                BuildColumnsFailsAt(columns, i, tableName, parsed);
                return Failure(MultiplePrimaryKeys(tableName));
              }
              notNull := true;
            }
            isUnique := true;
          }
        case NotNull =>
          notNull := true;
        case OtherOption =>
      }
      assert col.options[..|col.options|] == col.options;
      AddColumnPush(parsed, col, tableName, Flags(isPk, isUnique, notNull));
      BuildColumnsStep(columns, i, tableName, parsed);
      parsed := parsed + [ParsedColumn(name, typeName, isPk, notNull, isUnique)];
    }
    assert columns[..|columns|] == columns;
    r := Success(CreateQuery(tableName, parsed));
  }
}
