# sqlite-migrations: a Dafny model of the migration engine

The repository migrates a SQLite database file forward. `MigrationFactory`
yields, for the database's current `PRAGMA user_version`, the catalog steps
whose threshold lies above it. `SqliteDatabase.MigrateAsync` reads the
version once inside one serializable transaction. It then executes each step
and writes `user_version = ++version` after each one, and commits at the end.
Any exception (cancellation, a failing step) leaves the `using` block without
`Commit`, so disposing the transaction rolls everything back.

The model has five modules:

- `Wrappers` (`wrappers.dfy`): `Option` for the source's null arguments, `Result` for the exception a constructor throws.
- `Migrations` (`migration.dfy`): the `Migration` record and its constructor. It also has `Int32` with the wrapping `++` of a C# `int`, and `Factory`, the `IMigrationFactory` contract as a function from version to steps.
- `Factories` (`migration_factory.dfy`): the four-step catalog, `BuildMigrations`, and the `LoggedMigrationFactory` decorator.
- `Engine` (`sqlite_database.dfy`): the run.
  - The persisted state is `Store(userVersion, applied)`, where `applied` logs the steps whose effects are persisted.
  - The transaction is a working copy, `Work`, that replaces the store only at commit.
  - `Oracle` gives the answer of each cancellation check and of each step execution.
  - `Migrate` is the run as a specification function, and `RunSteps` is its loop.
  - Class `SqliteDatabase` holds the persisted fields. Its `MigrateAsync` is the imperative loop, proved equal to `Migrate`.
  - Each run also returns the statements it sent over the transaction (`ReadUserVersion`, `Execute(step)`, `WriteUserVersion(v)`). This lets order, exactly-once execution and bump-after-step be stated.
- `Composition` (`composition.dfy`): the catalog run through the engine, as `Program.cs` wires them. It covers the final version, a second run doing nothing, the decorator changing nothing, and the scenarios of a fresh database, a database at version 2, and a failing third step.

Cancellation checks are numbered in the order the run reaches them. Check 0 comes before the connection is opened, check `1 + k` before step `k`, and check `1 + n` before `Commit`. The oracle may answer each check independently. That is more general than a real token, which stays canceled once it is canceled, so every property also holds for real tokens.

`BuildMigrations` and the factories are Dafny functions. Equal versions therefore give equal plans by construction. No separate lemma states this.

## Model

| member | source | states |
|---|---|---|
| Migrations.NewMigration | SqliteMigrations/SqliteDatabase.cs:14-20 | construction fails with ArgumentNull("sql") exactly when `sql` is null; otherwise the four fields equal the arguments |
| Migrations.Inc | SqliteMigrations/SqliteDatabase.cs:92 | `++version` adds one below `int.MaxValue` and wraps to `int.MinValue` at it |
| Factories.Step | SqliteMigrations/MigrationFactory.cs:34-41 | each catalog step is what the `Migration` constructor builds from its SQL text with the optional arguments left out (the same holds at lines 44, 64 and 72) |
| Factories.BuildMigrations | SqliteMigrations/MigrationFactory.cs:30-78 | the plan is the catalog minus the steps already applied, in threshold order; its length is `4 - clamp(v, 0, 4)`; it is empty for `v >= 4`; and `v + |plan| = max(v, 4)` for `v >= 0` |
| Factories.CatalogDistinct | SqliteMigrations/MigrationFactory.cs:32-77 | the four catalog steps are pairwise different |
| Factories.BuildMigrationsSelectsByThreshold | SqliteMigrations/MigrationFactory.cs:32-77 | the step of threshold t (1..4) is in the plan for `v` if and only if `v < t` |
| Factories.BuildMigrationsIsSuffixOfFresh | SqliteMigrations/MigrationFactory.cs:32-77 | every plan is a suffix of the plan of a fresh (version 0) database |
| Factories.ForwardEach | SqliteMigrations/MigrationFactory.cs:19-24 | the decorator's `foreach … yield return` yields as many steps as the inner sequence holds |
| Factories.ForwardEachIsIdentity | SqliteMigrations/MigrationFactory.cs:19-24 | the decorator's `foreach … yield return` forwards every step, in order, none added or dropped |
| Factories.LoggedBuildMigrations | SqliteMigrations/MigrationFactory.cs:15-25 | the decorator yields exactly the inner factory's sequence for the same version |
| Factories.Logged | SqliteMigrations/MigrationFactory.cs:7-25 | the wrapped factory agrees with the inner one on every version |
| Engine.BumpedAdds | SqliteMigrations/SqliteDatabase.cs:70-94 | without wrap-around, the version after k bumps is `start + k` |
| Engine.InterleaveAt | SqliteMigrations/SqliteDatabase.cs:77-95 | in the loop's statements, number 2k executes step k and number 2k+1 writes `start + k + 1` (with wrap-around): the bumps are consecutive and each immediately follows its step |
| Engine.InterleaveLength | SqliteMigrations/SqliteDatabase.cs:77-95 | the loop sends exactly two statements per step, one execute and one version write |
| Engine.Advance | SqliteMigrations/SqliteDatabase.cs:81-94 | one successful pass through the loop body: the working copy gains exactly that step, the version is `++`'d, and the statements sent grow by the step's execute followed at once by the write of the new version; nothing earlier changes |
| Engine.RunSteps | SqliteMigrations/SqliteDatabase.cs:77-97 | the `foreach` loop and the final cancellation check: a failure names a step of the plan that throws; an `Ok` exit passed the final check and applied every remaining step; the loop never applies more steps than remain |
| Engine.WorkAfterStep | SqliteMigrations/SqliteDatabase.cs:81-94 | after k + 1 steps the transaction is the one after k steps with step k and its bump applied |
| Engine.FirstStop | SqliteMigrations/SqliteDatabase.cs:77-87 | the loop stops at the first step whose cancellation check fires or which throws; every earlier step is reached and succeeds |
| Engine.RunStepsSkips | SqliteMigrations/SqliteDatabase.cs:77-95 | running the loop equals running it from where it stops, with the earlier steps and their bumps applied to the transaction |
| Engine.RunStepsClosedForm | SqliteMigrations/SqliteDatabase.cs:77-99 | the loop's exit is `Canceled`, `Ok` or `StepFailed(s)` at its stopping point s, with the transaction holding exactly the first s steps |
| Engine.Migrate | SqliteMigrations/SqliteDatabase.cs:58-100 | only a committing run changes the persisted state; `ArgNull` exactly for a null factory; a null factory or a cancellation before connecting sends no statement and changes nothing |
| Engine.MigrateCommits | SqliteMigrations/SqliteDatabase.cs:65-98 | a run commits if and only if no cancellation check fires and no step fails; it then persists `start + n` and the old log extended by the plan, after reading the version once and sending each step once, in order, each followed by its bump |
| Engine.MigrateFailsAtStep | SqliteMigrations/SqliteDatabase.cs:77-99 | the run fails at step i if and only if the steps before it ran and succeeded, no check up to step i fired, and step i throws; the version then stays at `start` and no later step is sent |
| Engine.MigrateCanceled | SqliteMigrations/SqliteDatabase.cs:65-99 | a run is canceled if and only if check 0 fires, or check `1 + k` fires after steps `0..k-1` succeeded (k = n is the check before `Commit`); nothing is persisted, and only the first k steps were sent |
| Engine.MigrateEmptyPlan | SqliteMigrations/SqliteDatabase.cs:75-98 | an empty plan commits a no-op: the state is unchanged, the outcome is `Ok` unless a check fires, and only the version read is sent |
| Engine.SqliteDatabase.MigrateAsync | SqliteMigrations/SqliteDatabase.cs:58-100 | the imperative loop (version counter, working copy, checks, commit) leaves exactly the outcome, persisted state and statements of `Migrate`; any outcome other than `Ok` leaves both persisted fields unchanged |
| Composition.CatalogRunReachesLatest | SqliteMigrations/MigrationFactory.cs:32-77 | a committed catalog run appends the missing steps in threshold order and ends at `max(v, 4)` for `v >= 0`, or at `v + 4` for a negative version |
| Composition.SecondRunIsNoOp | SqliteMigrations/SqliteDatabase.cs:70-98 | after a committed catalog run, a second run reads version `max(v, 4)`, sends no step, and leaves the state unchanged |
| Composition.LoggedRunIsUnchanged | SqliteMigrations/MigrationFactory.cs:15-25 | a run through the logging decorator has the same outcome, persisted state and statements as a run through the inner factory |
| Composition.FreshDatabaseMigratesToLatest | SqliteMigrations/Program.cs:12-19 | the configuration of the entry point commits version 4 with all four steps, in order, on a fresh database |
| Composition.VersionTwoRunsTheLastTwoSteps | SqliteMigrations/MigrationFactory.cs:64-77 | at version 2 the plan is the steps of thresholds 3 and 4, in that order, and a committed run reaches version 4 |
| Composition.FailureAtThresholdThreeKeepsVersionTwo | SqliteMigrations/SqliteDatabase.cs:81-99 | if the step of threshold 3 throws on a database at version 2, the run stops and the database stays at version 2 with its old log |

## Left out

- Connection construction, the connection string and the `SqliteDatabase(FileInfo)` constructor (SqliteMigrations/SqliteDatabase.cs:35-56) are file-path and driver plumbing. `Engine.SqliteDatabase.constructor` simply takes the persisted state.
- Failures of the foreign SQLite driver are not modelled as outcomes. These are a connection that fails to open, `BeginTransaction` throwing (SqliteMigrations/SqliteDatabase.cs:68), the version read throwing (70-73), a version-bump write throwing (91-94), and `Commit` throwing (98). Each would leave the `using` block without a commit and so roll back.
- What the SQL of the four steps does to the schema (tables, columns, the unique index) is not modelled. The step texts are opaque constants.
- The Dapper and `Microsoft.Data.Sqlite` calls are replaced by the working copy and the statement trace. So are the serializable isolation level, `async`/`ConfigureAwait`, and concurrent runs against one file.
- `Parameter`, `CommandType` and `CommandTimeout` are carried through unchanged. The driver's use of them is not modelled.
- The decorator's `Console.WriteLine` output is I/O. It is dropped, and only the forwarding is modelled.
- Laziness of the `yield return` sequences is not modelled. The plan is a finite sequence computed at once, so the console output of the decorator would also appear at a different time.
- Factories are assumed not to throw while they are enumerated. In the source a factory can throw mid-enumeration: one that yields `new Migration(null)` throws ArgumentNullException, and a null element throws NullReferenceException at `migration.Sql` (SqliteMigrations/SqliteDatabase.cs:82) or in the decorator (SqliteMigrations/MigrationFactory.cs:21). Because the sequence is lazy, that exception leaves the `foreach` (SqliteMigrations/SqliteDatabase.cs:77) only after the earlier steps and their bumps were sent, and the run is then rolled back. No outcome models this path. For the same reason the source does not reject a malformed step before any database I/O: it is only found when the loop reaches it.
- A `LoggedMigrationFactory` built around a null inner factory is not modelled. That case only throws when the sequence is enumerated. The model always wraps an actual factory.
- `Program.cs` is modelled only by the factory wiring in `Composition.FreshDatabaseMigratesToLatest`. Deleting the file and `Console.ReadLine` are not modelled.
- Idempotence holds for start versions `v >= 0`. A negative `user_version` (below every threshold) runs all four steps, ends at `v + 4`, and a further run may apply steps again. `Composition.SecondRunIsNoOp` therefore requires `v >= 0`.
