/** The migration step record and the factory contract of
    SqliteMigrations/SqliteDatabase.cs. */
module Migrations {
  import opened Wrappers

  /** A C# `int`: the type of `PRAGMA user_version` as the engine reads it. */
  type Int32 = x: int | -0x8000_0000 <= x < 0x8000_0000

  const Int32Max: Int32 := 0x7fff_ffff
  const Int32Min: Int32 := -0x8000_0000

  /** `++version` on a C# `int`, which wraps around (unchecked arithmetic). */
  function Inc(v: Int32): (r: Int32)
    ensures v < Int32Max ==> r == v + 1
    ensures v == Int32Max ==> r == Int32Min
  {
    if v == Int32Max then Int32Min else v + 1
  }

  /** System.Data.CommandType, passed through to the driver unchanged. */
  datatype CommandType = Text | StoredProcedure | TableDirect

  /** The `object parameter` of a step: an opaque handle the engine forwards to the driver. */
  datatype Parameter = Parameter(handle: nat)

  /** A migration step. The SQL text is never null; the other three fields are
      optional and passed through unchanged. */
  datatype Migration = Migration(
    sql: string,
    parameter: Option<Parameter>,
    commandType: Option<CommandType>,
    commandTimeout: Option<Int32>)

  /** The exception the constructor throws. */
  datatype ArgumentError = ArgumentNull(paramName: string)

  /** The `Migration` constructor: a null `sql` is refused with an
      ArgumentNullException naming `sql`; otherwise every field is the argument given. */
  function NewMigration(
    sql: Option<string>,
    parameter: Option<Parameter> := None,
    commandType: Option<CommandType> := None,
    commandTimeout: Option<Int32> := None): (r: Result<Migration, ArgumentError>)
    ensures r.Failure? <==> sql.None?
    ensures r.Failure? ==> r.error == ArgumentNull("sql")
    ensures r.Success? ==>
      && Some(r.value.sql) == sql
      && r.value.parameter == parameter
      && r.value.commandType == commandType
      && r.value.commandTimeout == commandTimeout
  {
    match sql
    case None => Failure(ArgumentNull("sql"))
    case Some(text) => Success(Migration(text, parameter, commandType, commandTimeout))
  }

  /** IMigrationFactory: the steps still to run from a given `user_version`,
      for a factory whose enumeration does not throw. */
  type Factory = int -> seq<Migration>
}
