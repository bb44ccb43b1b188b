/** The engine run with the catalog, as SqliteMigrations/Program.cs wires them:
    the final version, idempotence of a second run, and transparency of the
    logging decorator. */
module Composition {
  import opened Wrappers
  import opened Migrations
  import opened Factories
  import opened Engine

  /** A committed catalog run persists every step the database lacked, in
      threshold order, and ends at version `max(v, 4)` for `v >= 0` (`v + 4`
      for a negative `user_version`, which is below every threshold). */
  lemma CatalogRunReachesLatest(db: Store, oracle: Oracle)
    ensures var r := Migrate(db, Some(BuildMigrations), oracle);
      var v := db.userVersion;
      r.outcome == Ok ==>
        && r.store.applied == db.applied + Catalog[Applied(v)..]
        && (v >= 0 ==> r.store.userVersion == Max(v, Latest))
        && (v < 0 ==> r.store.userVersion == v + Latest)
  {
    var v := db.userVersion;
    MigrateCommits(db, BuildMigrations, oracle);
    BumpedAdds(v, |BuildMigrations(v)|);
  }

  /** Running the catalog again after a committed run sends no step: the
      second run reads the version, finds an empty plan and commits a no-op
      (or is canceled), and the persisted state stays as the first run left it. */
  lemma SecondRunIsNoOp(db: Store, first: Oracle, second: Oracle)
    requires db.userVersion >= 0
    requires Migrate(db, Some(BuildMigrations), first).outcome == Ok
    ensures var after := Migrate(db, Some(BuildMigrations), first).store;
      var again := Migrate(after, Some(BuildMigrations), second);
      && again.store == after
      && after.userVersion == Max(db.userVersion, Latest)
      && (again.outcome == Ok <==> !second.CanceledAt(0) && !second.CanceledAt(1))
      && (again.outcome == Ok || again.outcome == Canceled)
      && again.issued == (if second.CanceledAt(0) then [] else [ReadUserVersion])
  {
    CatalogRunReachesLatest(db, first);
    var after := Migrate(db, Some(BuildMigrations), first).store;
    MigrateEmptyPlan(after, BuildMigrations, second);
  }

  /** Wrapping any factory in the logging decorator changes nothing about a
      run: same outcome, same persisted state, same statements. */
  lemma LoggedRunIsUnchanged(db: Store, factory: Factory, oracle: Oracle)
    ensures Migrate(db, Some(Logged(factory)), oracle) == Migrate(db, Some(factory), oracle)
  {
  }

  /** The configuration of Program.cs on a fresh database file, with no
      cancellation and no failing step: all four steps run in threshold order,
      each followed by its version bump, and version 4 is committed. */
  lemma FreshDatabaseMigratesToLatest()
    ensures Migrate(Store(0, []), Some(Logged(BuildMigrations)), Oracle([], [])) ==
      Run(Ok, Store(4, Catalog),
          [ReadUserVersion,
           Execute(CreatePerson), WriteUserVersion(1),
           Execute(AddCreated), WriteUserVersion(2),
           Execute(AddSsn), WriteUserVersion(3),
           Execute(IndexSsn), WriteUserVersion(4)])
  {
    var db := Store(0, []);
    var oracle := Oracle([], []);
    LoggedRunIsUnchanged(db, BuildMigrations, oracle);
    MigrateCommits(db, BuildMigrations, oracle);
    BumpedAdds(0, 4);
    assert Catalog[..4] == Catalog;
    var trace := Interleave(Catalog, 0);
    BumpedAdds(0, 1);
    BumpedAdds(0, 2);
    BumpedAdds(0, 3);
    InterleaveAt(Catalog, 0, 0);
    InterleaveAt(Catalog, 0, 1);
    InterleaveAt(Catalog, 0, 2);
    InterleaveAt(Catalog, 0, 3);
    assert |trace| == 8;
    assert trace[0] == Execute(CreatePerson) && trace[1] == WriteUserVersion(1);
    assert trace[2] == Execute(AddCreated) && trace[3] == WriteUserVersion(2);
    assert trace[4] == Execute(AddSsn) && trace[5] == WriteUserVersion(3);
    assert trace[6] == Execute(IndexSsn) && trace[7] == WriteUserVersion(4);
  }

  /** A database at version 2 receives exactly the steps of thresholds 3 and 4,
      in that order, and a committed run takes it to version 4. */
  lemma VersionTwoRunsTheLastTwoSteps(log: seq<Migration>, oracle: Oracle)
    ensures BuildMigrations(2) == [AddSsn, IndexSsn]
    ensures var r := Migrate(Store(2, log), Some(BuildMigrations), oracle);
      r.outcome == Ok ==> r.store == Store(4, log + [AddSsn, IndexSsn])
  {
    CatalogRunReachesLatest(Store(2, log), oracle);
  }

  /** If the step of threshold 3 throws on a database at version 2, the run
      stops there and the database stays at version 2 with its old log. */
  lemma FailureAtThresholdThreeKeepsVersionTwo(log: seq<Migration>)
    ensures Migrate(Store(2, log), Some(BuildMigrations), Oracle([], [true])) ==
      Run(StepFailed(0), Store(2, log), [ReadUserVersion, Execute(AddSsn)])
  {
  }
}
