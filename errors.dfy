/** Errors raised by the SQL core and the meta-command handler, and the
    result type every fallible operation returns. */
module Errors {

  /** The variants of the store's error enum that this core raises. */
  datatype ErrorKind = Internal | General | SqlError | NotImplemented | UnknownCommand

  /** One constructor per failure, so that contracts can say which check failed;
      `get_table` and `get_table_mut` share `TableNotFound`. */
  datatype Error =
    | NotACreateStatement                         // CreateQuery::new on another statement
    | DuplicateColumn(column: string)
    | MultiplePrimaryKeys(table: string)
    | TableAlreadyExists
    | TableNotFound                               // Database::get_table, get_table_mut
    | TableDoesNotExist                           // INSERT into an unknown table
    | ColumnsDoNotExist
    | ValueCountMismatch(values: nat, columns: nat)
    | UniqueViolation(detail: string)
    | StatementCount(count: nat)
    | StatementNotSupported
    | UnknownMetaCommand
  {
    /** The error enum variant the source wraps this failure in. */
    function Kind(): ErrorKind
    {
      match this
      case TableNotFound => General
      case StatementCount(_) => SqlError
      case StatementNotSupported => NotImplemented
      case UnknownMetaCommand => UnknownCommand
      case _ => Internal
    }

    /** The text the source attaches to the failure. */
    function Message(): string
    {
      match this
      case NotACreateStatement => "Error parsing query"
      case DuplicateColumn(c) => "Duplicate column name: " + c
      case MultiplePrimaryKeys(t) => "Table '" + t + "' has more than one primary key"
      case TableAlreadyExists => "Cannot create, table already exists."
      case TableNotFound => "Table not found."
      case TableDoesNotExist => "Table doesn't exist"
      case ColumnsDoNotExist => "Cannot insert, some of the columns do not exist"
      case ValueCountMismatch(v, c) => Decimal(v) + " values for " + Decimal(c) + " columns"
      case UniqueViolation(d) => "Unique key constaint violation: " + d
      case StatementCount(n) => "Expected a single query statement, but there are " + Decimal(n)
      case StatementNotSupported => "SQL Statement not supported yet."
      case UnknownMetaCommand => "Unknown command or invalid arguments. Enter '.help'"
    }
  }

  datatype Result<T> = Success(value: T) | Failure(error: Error)

  /** Result of a check that produces no value. */
  datatype Outcome = Pass | Fail(error: Error)

  function Digit(d: nat): (c: char)
    requires d < 10
    ensures '0' <= c <= '9'
  {
    ['0', '1', '2', '3', '4', '5', '6', '7', '8', '9'][d]
  }

  /** Decimal rendering of a count, as `format!("{}", n)` prints it. */
  function Decimal(n: nat): (s: string)
    ensures |s| > 0
    ensures forall i :: 0 <= i < |s| ==> '0' <= s[i] <= '9'
    ensures n > 0 ==> s[0] != '0'
  {
    if n < 10 then [Digit(n)] else Decimal(n / 10) + [Digit(n % 10)]
  }
}
