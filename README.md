# rust-db core, modelled in Dafny

rust-db is a small SQLite-like database with a REPL. This project models the part that turns an
already-parsed SQL statement into a change of the in-memory database:

- **Schema builder** (`CreateQuery::new`, `create.dfy`). It takes a CREATE TABLE statement and
  produces the ordered column list. For each column it:
  - refuses a repeated column name;
  - maps the declared SQL type onto one of the five logical types Integer, Bool, Text, Real and
    Invalid;
  - runs an option loop over UNIQUE, PRIMARY KEY and NOT NULL, refusing a second primary key.

  `NewCreateQuery` is the imperative loop-in-loop. It is proved equal to `CreateQuerySpec`, a
  function over the columns processed so far. `CreateQueryMeaning` then ties that function to
  reference definitions (`ExpectedColumn`, `WellFormed`) that state each column's flags without
  the loop.
- **Database registry** (`Database`, `database.dfy`). A class with a name and a map from table
  name to `Table` object. It covers `new`, `contains_table`, `get_table` and `get_table_mut`.
- **Table operations the dispatcher calls** (`tables.dfy`): `Table::new`, `contains_column`,
  `validate_unique_constraint` and `insert_row`. They are given only the behaviour the dispatcher
  relies on.
- **Dispatcher** (`sql.dfy`).
  - The first-token classifier `SQLCommand::new`.
  - `process_command`, modelled as `ProcessCommand`, a method on the live `Database` whose CREATE
    TABLE and INSERT branches are the methods `CreateTableInto` and `InsertInto`.
  - Each method is proved to turn the database's value (`Database.State()`) exactly as the
    function `Process` / `ExecCreate` / `ExecInsert` says.
  - The properties are lemmas about those functions:
    - a failed statement changes nothing, except for an INSERT;
    - an INSERT touches only its target table;
    - a multi-row INSERT keeps the rows of the tuples accepted before the refused one;
    - a duplicate CREATE TABLE is refused.
  - An end-to-end scenario covers CREATE, INSERT and a refused duplicate-key INSERT.
- **Meta-commands** (`meta_command.dfy`): `MetaCommand::new`, its `Display`, and
  `handle_meta_command`.

The error enum (`errors.dfy`) keeps one constructor per failure; `get_table` and
`get_table_mut` share `TableNotFound`. Each constructor carries the
variant the source wraps it in (`Kind`) and the exact message text (`Message`). The parsed
statement tree (`ast.dfy`) keeps only the fields the core reads.

### Behaviour of the code the model keeps

- **Keyable types.** The comment at src/sql/parser/create.rs:90-91 says that only Integer and
  Text columns can be PRIMARY KEY or UNIQUE. The test on the next line
  (src/sql/parser/create.rs:92) only excludes Real and Bool, so a column of an unrecognised
  ("Invalid") type can be keyed. `Keyable` follows the test.
- **INSERT commits a prefix.** The tuple loop appends each tuple as soon as it passes its checks
  and returns on the first refused tuple (src/sql/mod.rs:108-129). The rows of the tuples before
  the refused one stay in the table. `ProcessInsertCommitsPrefix` states this.
- **Error variants.** Every failure of the schema builder and of the INSERT branch, and the
  "table already exists" refusal, is wrapped in `SQLRiteError::Internal`. Only the lookup error of
  `get_table` and `get_table_mut` is `General`, the statement count is `SqlError`, an unsupported
  statement is `NotImplemented`, and an unknown meta-command is `UnknownCommand`. `Error.Kind`
  records these variants.

## Model

| member | source | states |
|---|---|---|
| Text.PrefixUntil | src/sql/mod.rs:28-29 | the first piece of `split(" ")` is a prefix of the command, holds no separator, and ends at the first separator or the end of the text |
| Text.PrefixUntilAt | src/sql/mod.rs:28-29 | that first piece is determined: it is `s[..k]` for the position `k` of the first separator |
| Text.CountWhile | src/meta_command/mod.rs:29 | the leading whitespace skipped by `split_whitespace` is all whitespace and stops at the first non-whitespace character |
| Text.FirstWord | src/meta_command/mod.rs:29-30 | `args[0]` is a non-empty run without whitespace that begins after the leading whitespace and ends at whitespace or the end of the line |
| Create.TypeName | src/sql/parser/create.rs:64-79 | every declared type maps to one of Integer, Bool, Text, Real, Invalid |
| Create.TypeNameFamilies | src/sql/parser/create.rs:64-79 | which declared types give each logical type, in both directions (anything else is Invalid) |
| Create.BuildColumns | src/sql/parser/create.rs:51-121 | an accepted column loop yields one column per declaration, with the declared names in order |
| Create.ResolveOptionsMeaning | src/sql/parser/create.rs:82-112 | the option loop fails with "more than one primary key" exactly when the type can be keyed, an earlier column is the primary key and a PRIMARY KEY option is present; otherwise is_pk is the last key option's primary flag, is_unique is "some key option", not_null is "NOT NULL or PRIMARY KEY", and all of them are false for Real/Bool except not_null |
| Create.AddColumnMeaning | src/sql/parser/create.rs:52-120 | one column step succeeds exactly when the extended declaration list is still well formed, and then appends the expected column |
| Create.BuildColumnsMeaning | src/sql/parser/create.rs:51-121 | the column loop succeeds exactly on well-formed declarations (distinct names, no effective PRIMARY KEY after the primary-key column) and then yields the expected column of each declaration |
| Create.BuildColumnsFailurePersists | src/sql/parser/create.rs:55-60 | the column loop fails fast: once a prefix of the columns fails, the whole statement fails with the same error |
| Create.ResolveOptionsFailurePersists | src/sql/parser/create.rs:96-101 | the option loop fails fast: the first error is the column's error |
| Create.CreateQueryMeaning | src/sql/parser/create.rs:33-137 | a statement other than CREATE TABLE is refused with "Error parsing query"; a CREATE TABLE is accepted exactly when well formed, and then yields its name and the expected columns |
| Create.BuildColumnsError | src/sql/parser/create.rs:51-112 | a refused column loop failed at the first column that breaks well-formedness: "Duplicate column name" with that column's name when it repeats an earlier name, "more than one primary key" for the table otherwise |
| Create.BadColumnInPrefix | src/sql/parser/create.rs:51-60 | a failure among the earlier columns is the statement's failure, at the same column and with the same error |
| Create.LastColumnError | src/sql/parser/create.rs:52-112 | when every earlier column passes, a failing last column fails with the duplicate-name error if its name repeats and the primary-key error otherwise |
| Create.CreateRefusalError | src/sql/parser/create.rs:51-112 | a refused CREATE TABLE reports its first bad column: a repeated name as "Duplicate column name", else "Table '…' has more than one primary key" |
| Create.NewCreateQuery | src/sql/parser/create.rs:33-137 | the loop-in-loop returns exactly the result `CreateQueryMeaning` and `CreateRefusalError` characterise, including which error on a refused statement |
| Create.LastUniqueIsPrimaryDeclared | src/sql/parser/create.rs:89-93 | a column can only end up primary if a PRIMARY KEY option was declared on it |
| Create.PrimaryColumnDeclared | src/sql/parser/create.rs:89-104 | a column that ends up primary declared a PRIMARY KEY on a keyable type |
| Create.CreateKeepsDeclarationOrder | src/sql/parser/create.rs:114-132 | the table descriptor keeps the statement's table name and one column per declaration, in order, with the mapped type |
| Create.CreateRejectsDuplicateName | src/sql/parser/create.rs:55-60 | two declarations with the same name make the statement fail |
| Create.CreateAtMostOnePrimaryKey | src/sql/parser/create.rs:94-101 | an accepted table has at most one primary-key column |
| Create.CreateRejectsSecondPrimaryKey | src/sql/parser/create.rs:92-101 | a keyable column declaring PRIMARY KEY after the primary-key column makes the statement fail |
| Create.CreateAcceptsValidDeclarations | src/sql/parser/create.rs:51-132 | distinct names and at most one column with an effective PRIMARY KEY make the statement succeed |
| Create.CreateColumnFlags | src/sql/parser/create.rs:92-105 | every output column satisfies is_pk ⇒ not_null ∧ is_unique, and Real and Bool columns are never primary or unique |
| Create.CreateHonoursNotNull | src/sql/parser/create.rs:107-109 | NOT NULL takes effect on a column of any type |
| Create.UniqueAfterPrimaryKeyClearsPk | src/sql/parser/create.rs:93 | with PRIMARY KEY followed by UNIQUE, the later option resets is_pk while not_null stays set |
| Create.CreateIgnoresConstraints | src/sql/parser/create.rs:123-127 | table-level constraints do not change the result (the model drops them; the source only prints them) |
| Tables.UniqueCheck | src/sql/mod.rs:117 | a reported clash names one of the inserted columns |
| Tables.UniqueCheckMeaning | src/sql/mod.rs:117-127 | under the assumed uniqueness rule, the check passes exactly when no (column, value) pair repeats a stored value of a unique column, and a clash names such a column |
| Tables.MakeRow | src/sql/mod.rs:120 | the row stored for the names and values handed to `insert_row` has cells only for named columns (row shape assumed, see Left out) |
| Tables.MakeRowKeys | src/sql/mod.rs:120 | the assumed stored row has a cell for exactly the named columns |
| Tables.MakeRowValues | src/sql/mod.rs:120 | in the assumed stored row each cell holds the value given for its column (the last one when a column is named twice, an assumption about table.rs) |
| Tables.Table.constructor | src/sql/mod.rs:74 | a new table has the schema's name and columns and no rows |
| Tables.Table.ContainsColumn | src/sql/mod.rs:103-106 | true exactly when a schema column has that name (assumed, see Left out) |
| Tables.Table.ValidateUniqueConstraint | src/sql/mod.rs:117 | the check called by the dispatcher on the table's current rows: clear exactly when no (column, value) pair clashes on a unique column, and a clash names a column whose value does clash (assumed rule, see Left out) |
| Tables.Table.InsertRow | src/sql/mod.rs:120 | appends exactly one row, built from the names and values, to the table's rows |
| Db.Database.constructor | src/sql/db/database.rs:23-28 | a new database has the given name and no tables |
| Db.Database.ContainsTable | src/sql/db/database.rs:32-34 | true exactly when a table is registered under the name |
| Db.Database.GetTable | src/sql/db/database.rs:39-45 | succeeds exactly when the name is registered, with that table; otherwise "Table not found." as a General error |
| Db.Database.GetTableMut | src/sql/db/database.rs:50-56 | the same lookup for in-place updates, with the same error |
| Db.Database.StateAfterUpdate | src/sql/mod.rs:101-120 | updating one table object in place changes the database's value at that name only |
| Db.Database.GetTableMutAgreesWithContains | src/sql/mod.rs:99-101 | after `contains_table` holds, `get_table_mut` succeeds, so the dispatcher's unwrap cannot panic |
| Sql.NewSqlCommand | src/sql/mod.rs:27-37 | the command keeps its text, and its kind is decided by the text before the first space, in both directions for each keyword |
| Sql.ClassifierIsCaseSensitive | src/sql/mod.rs:28-35 | "insert …" is an Insert whatever follows the space, while "INSERT …" is Unknown |
| Sql.InsertOne | src/sql/mod.rs:108-128 | a tuple of the wrong arity is refused with "{values} values for {columns} columns"; any other refusal is a unique violation naming one of the inserted columns; a refused tuple leaves the table as it was; an accepted one has the right arity and appends its row |
| Sql.InsertOneRefuses | src/sql/mod.rs:110-128 | a tuple is refused exactly when its arity differs from the column list or one of its values clashes on a unique column, and a reported violation names a column whose value does clash |
| Sql.InsertFrom | src/sql/mod.rs:108-129 | the tuple loop keeps the table's name and columns, adds at most one row per tuple, and exactly one per tuple when it succeeds |
| Sql.InsertFromKeepsRows | src/sql/mod.rs:108-129 | stored rows are never rewritten: the old rows are a prefix of the new |
| Sql.InsertFromAppend | src/sql/mod.rs:108-129 | running the loop over `a + b` is running it over `a`, then (unless that failed) over `b` |
| Sql.InsertFromStep | src/sql/mod.rs:108-128 | one more iteration is one more `InsertOne` on the table so far |
| Sql.InsertFromCommitsPrefix | src/sql/mod.rs:108-129 | when tuples 0..k-1 pass and tuple k is refused, the loop reports tuple k's error and keeps the rows of tuples 0..k-1 |
| Sql.InsertFromSuccessRows | src/sql/mod.rs:108-129 | a successful loop appends one row per tuple, in order, and every tuple had the right arity |
| Sql.InsertFromFailureStopsAt | src/sql/mod.rs:108-129 | a failed loop stopped at the tuple right after the rows it appended, with that tuple's error |
| Sql.ExecCreate | src/sql/mod.rs:60-88 | CREATE TABLE succeeds exactly when the declarations are well formed and the name is free, then registers an empty table with the expected columns; otherwise it propagates the schema error or reports "table already exists" and changes nothing |
| Sql.ExecInsert | src/sql/mod.rs:89-149 | INSERT keeps the set of tables and every other table, fails with "Table doesn't exist" or "some of the columns do not exist" without change, and otherwise runs the tuple loop on the target table |
| Sql.ExecInsertStopsAt | src/sql/mod.rs:108-129 | an INSERT refused at tuple i reports that error and leaves the target with the rows of the tuples before i |
| Sql.Process | src/sql/mod.rs:41-161 | a statement list of length other than one is refused without change; no statement removes a table or rewrites a table's name, columns or stored rows |
| Sql.ProcessNoOps | src/sql/mod.rs:150-157 | SELECT and DELETE succeed without effect; any other statement kind is refused as NotImplemented without effect |
| Sql.ProcessFailureOutsideInsert | src/sql/mod.rs:47-88 | a failed statement that is not an INSERT leaves the database unchanged |
| Sql.ProcessInsertTouchesOnlyTarget | src/sql/mod.rs:99-143 | an INSERT changes no table but its target, and nothing at all when the table or a column is missing |
| Sql.ProcessInsertCommitsPrefix | src/sql/mod.rs:108-129 | a multi-row INSERT whose tuple k is refused reports tuple k's error and keeps exactly the rows of tuples 0..k-1 |
| Sql.ProcessCreateConflict | src/sql/mod.rs:66-72 | CREATE TABLE under a registered name fails and changes nothing |
| Sql.RepeatedCreateRejected | src/sql/mod.rs:60-84 | the same CREATE TABLE twice: the first registers the table, the second is refused and keeps it |
| Sql.UsersCreated | src/sql/mod.rs:60-84 | CREATE TABLE (id INT PRIMARY KEY, name TEXT) registers an empty table whose id column is primary, unique and not null |
| Sql.UsersFirstInsert | src/sql/mod.rs:89-149 | the first INSERT into that table stores exactly the one row |
| Sql.UsersSecondInsert | src/sql/mod.rs:117-127 | a second INSERT with the same id is refused as a unique violation on id, without change |
| Sql.DuplicatePrimaryKeyRejected | src/sql/mod.rs:60-149 | the three statements in sequence: the table ends with exactly the first row |
| Sql.CreateTableInto | src/sql/mod.rs:60-88 | the CREATE TABLE branch on the live database gives the result and the new state `ExecCreate` describes, and keeps the database's name |
| Sql.InsertInto | src/sql/mod.rs:89-149 | the INSERT branch, appending in place tuple by tuple, gives the result and the new state `ExecInsert` describes |
| Sql.ProcessCommand | src/sql/mod.rs:41-161 | `process_command` on the live database gives the result and the new state `Process` describes, and keeps the database's name |
| Meta.Display | src/meta_command/mod.rs:16-25 | every command displays as text holding a token |
| Meta.NewMetaCommand | src/meta_command/mod.rs:27-38 | Exit, Help and Open are chosen exactly when the first whitespace-separated token is .exit, .help and .open; Open keeps the whole line |
| Meta.FirstWordOf | src/meta_command/mod.rs:29-30 | a line that starts with a whitespace-free word followed by whitespace or the end has that word as its first token |
| Meta.DisplayRoundTrip | src/meta_command/mod.rs:16-37 | classifying a command's display form gives the command back, except that Open comes back carrying only ".open" |
| Meta.OpenKeepsWholeLine | src/meta_command/mod.rs:34 | ".open" plus an argument is classified as Open carrying the whole line, not just the argument |
| Meta.HandleMetaCommand | src/meta_command/mod.rs:46-60 | Help answers the help text, Open answers "To be implemented: " plus its line, and only Unknown fails, as an UnknownCommand error |

## Left out

- Parsing. `Parser::parse_sql` with the SQLite dialect is a third-party collaborator. The model
  starts from the parsed statement list, so its parse-error path (src/sql/mod.rs:44-45) is not
  modelled.
- Statement tree. Of the parser's statement, data-type and column-option variants, only the ones
  the core distinguishes are kept. Type arguments such as precision and length are dropped.
  Names are the parser's identifier text, with no quoting or case rules.
- `InsertQuery::new`: src/sql/parser/insert.rs is not part of this model. An INSERT arrives as its
  table name, column names and value tuples as text, and the failure path of that extraction
  (src/sql/mod.rs:145) is not modelled.
- Table internals: src/sql/db/table.rs is not part of this model.
  - `Tables` keeps a table's name, schema and rows as maps from column name to the literal value
    text.
  - Its column check is this model's assumption about table.rs: a column exists when a schema
    column has exactly that name.
  - Its uniqueness check is this model's assumption about table.rs: a value clashes when a stored
    row holds the same text in the same UNIQUE or PRIMARY KEY column.
  - `UniqueViolation` carries the clashing column's name in place of table.rs's own error text.
  - Typed storage, indexes and row ids are not modelled.
- Tables.MakeRow: the stored row's shape, and the rule that a column named twice in an INSERT keeps
  its later value, are this model's assumptions about `insert_row` in src/sql/db/table.rs.
  src/sql/mod.rs:120 only hands the names and values over.
- Console output: `print_table_schema`, `print_table_data`, the printing of table constraints and
  the "not matched on custom type" diagnostic are left out.
- The REPL in src/main.rs: line editing, history and the dispatch between meta-commands and SQL.
- HandleMetaCommand: requires a command other than Exit. `.exit` appends the line history to a
  file and ends the process, neither of which is modelled.
- NewMetaCommand: requires a line holding at least one token. On a blank line the source indexes
  an empty token list and panics.
- The `Serialize`/`Deserialize` derivations of `Database` and the `Display` text of the error
  enum are not modelled.
