/** SqliteMigrations/MigrationFactory.cs: the fixed catalog of four steps and
    the logging decorator. */
module Factories {
  import opened Wrappers
  import opened Migrations

  /** `new Migration(sql)` with the optional arguments left at their defaults. */
  function Step(sql: string): (r: Migration)
    ensures NewMigration(Some(sql)) == Success(r)
  {
    Migration(sql, None, None, None)
  }

  // The four steps; their SQL text is opaque to the engine and is only named here.
  const CreatePerson: Migration := Step("create table person (id, name)")
  const AddCreated: Migration := Step("rebuild table person with a created column")
  const AddSsn: Migration := Step("add nullable column ssn to person")
  const IndexSsn: Migration := Step("create unique index ssn_uq_idx on non-null ssn")

  /** The catalog in threshold order: `Catalog[t - 1]` runs when the version is below `t`. */
  const Catalog: seq<Migration> := [CreatePerson, AddCreated, AddSsn, IndexSsn]

  /** The highest threshold, that is the version the catalog migrates to. */
  const Latest: nat := 4

  /** How many catalog steps a database at `version` has already had. */
  function Applied(version: int): (c: nat)
    ensures c <= Latest
    ensures 0 <= version <= Latest ==> c == version
    ensures version < 0 ==> c == 0
    ensures version > Latest ==> c == Latest
  {
    if version < 0 then 0 else if version > Latest then Latest else version
  }

  function Max(a: int, b: int): int
  {
    if a < b then b else a
  }

  /** MigrationFactory.BuildMigrations: the step of threshold t is yielded iff
      `version < t`, in ascending threshold order — the catalog without the steps
      the database already has. */
  function BuildMigrations(version: int): (r: seq<Migration>)
    ensures r == Catalog[Applied(version)..]
    ensures |r| == Latest - Applied(version)
    ensures version >= Latest ==> r == []
    ensures version >= 0 ==> version + |r| == Max(version, Latest)
  {
    (if version < 1 then [CreatePerson] else [])
    + (if version < 2 then [AddCreated] else [])
    + (if version < 3 then [AddSsn] else [])
    + (if version < 4 then [IndexSsn] else [])
  }

  /** The four steps are pairwise different. */
  lemma CatalogDistinct()
    ensures forall i, j :: 0 <= i < j < |Catalog| ==> Catalog[i] != Catalog[j]
  {
  }

  /** The step of threshold t is in the plan for `version` exactly when `version < t`. */
  lemma BuildMigrationsSelectsByThreshold(version: int, t: int)
    requires 1 <= t <= Latest
    ensures Catalog[t - 1] in BuildMigrations(version) <==> version < t
  {
  }

  /** The plan for any version is a suffix of the full plan of a fresh database. */
  lemma BuildMigrationsIsSuffixOfFresh(version: int)
    ensures var full := BuildMigrations(0);
      BuildMigrations(version) == full[|full| - |BuildMigrations(version)|..]
  {
  }

  /** The `foreach … yield return migration` of LoggedMigrationFactory with the
      console output dropped: every step of `steps`, in order. */
  function ForwardEach(steps: seq<Migration>): (r: seq<Migration>)
    ensures |r| == |steps|
  {
    if steps == [] then [] else [steps[0]] + ForwardEach(steps[1..])
  }

  lemma {:induction false} ForwardEachIsIdentity(steps: seq<Migration>)
    ensures ForwardEach(steps) == steps
  {
    if steps != [] {
      ForwardEachIsIdentity(steps[1..]);
      assert [steps[0]] + steps[1..] == steps;
    }
  }

  /** LoggedMigrationFactory.BuildMigrations: the inner factory's steps for
      `version`, none dropped, added or reordered. */
  function LoggedBuildMigrations(inner: Factory, version: int): (r: seq<Migration>)
    ensures r == inner(version)
  {
    ForwardEachIsIdentity(inner(version));
    ForwardEach(inner(version))
  }

  /** `new LoggedMigrationFactory(inner)` seen as a factory. */
  function Logged(inner: Factory): (f: Factory)
    ensures forall version :: f(version) == inner(version)
  {
    version => LoggedBuildMigrations(inner, version)
  }
}
