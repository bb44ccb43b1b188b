/** The migration run of SqliteMigrations/SqliteDatabase.cs (`MigrateAsync`).

    The database is modelled by what the run can observe and change: the
    persisted `user_version` and the log of steps whose effects are persisted.
    The transaction is a working copy of both; it replaces the persisted state
    only at `Commit`, and leaving the run any other way drops it (the rollback
    that disposing an uncommitted transaction performs). What the SQL of a step
    does is opaque; whether it throws comes from an oracle, and so does whether
    the cancellation token is found canceled at each check. */
module Engine {
  import opened Wrappers
  import opened Migrations

  /** The statements the run sends over its transaction, in order. */
  datatype Statement =
    | ReadUserVersion                  // PRAGMA user_version;
    | Execute(migration: Migration)    // the step's own SQL
    | WriteUserVersion(version: Int32) // PRAGMA user_version = <version>;

  /** How a run ends: the exception that leaves `MigrateAsync`, or none. */
  datatype Outcome =
    | Ok                      // committed
    | Canceled                // OperationCanceledException from a cancellation check
    | StepFailed(index: nat)  // the step at this position of the plan threw
    | ArgNull                 // ArgumentNullException: the factory was null

  /** The persisted state of the database file. */
  datatype Store = Store(userVersion: Int32, applied: seq<Migration>)

  /** What the environment answers during one run.
      Cancellation checks are numbered in the order the run reaches them:
      check 0 is the one before the connection is opened, check 1 + k the one
      before step k, and check 1 + n, for a plan of n steps, the one before Commit.
      `stepFails[k]` tells whether executing step k throws. Positions past the
      end of either sequence answer false. */
  datatype Oracle = Oracle(cancelRequested: seq<bool>, stepFails: seq<bool>) {
    predicate CanceledAt(check: nat)
    {
      check < |cancelRequested| && cancelRequested[check]
    }

    predicate FailsAt(step: nat)
    {
      step < |stepFails| && stepFails[step]
    }

    /** Step k is reached (its cancellation check passes) and succeeds. */
    predicate Passes(k: nat)
    {
      !CanceledAt(1 + k) && !FailsAt(k)
    }

    /** Steps 0 .. k - 1 are all reached and all succeed. */
    predicate Survives(k: nat)
    {
      forall j :: 0 <= j < k ==> Passes(j)
    }
  }

  /** The transaction's working copy: its `user_version`, its log of steps, and
      the statements sent over it so far. */
  datatype Work = Work(version: Int32, applied: seq<Migration>, issued: seq<Statement>)

  /** A loop exit: the outcome and the working copy at that moment. */
  datatype Exit = Exit(outcome: Outcome, work: Work)

  /** What a whole run returns: its outcome, the persisted state afterwards, and
      the statements it sent. */
  datatype Run = Run(outcome: Outcome, store: Store, issued: seq<Statement>)

  /** `version` after k bumps by `++version`. */
  function Bumped(start: Int32, k: nat): Int32
  {
    if k == 0 then start else Inc(Bumped(start, k - 1))
  }

  /** Without wrap-around, the version after k bumps is `start + k`. */
  lemma {:induction false} BumpedAdds(start: Int32, k: nat)
    requires start + k <= Int32Max
    ensures Bumped(start, k) == start + k
  {
    if k > 0 {
      BumpedAdds(start, k - 1);
    }
  }

  /** The statements the loop sends for `steps` from `start`: each step followed
      immediately by the write of the version it brings the database to. */
  function Interleave(steps: seq<Migration>, start: Int32): seq<Statement>
  {
    if steps == [] then []
    else
      var n := |steps|;
      Interleave(steps[..n - 1], start) + [Execute(steps[n - 1]), WriteUserVersion(Bumped(start, n))]
  }

  /** Statement 2k of the loop's trace executes step k, and statement 2k + 1
      writes version `Bumped(start, k + 1)`: the k-th bump immediately follows
      the k-th step. */
  lemma {:induction false} InterleaveAt(steps: seq<Migration>, start: Int32, k: nat)
    requires k < |steps|
    ensures |Interleave(steps, start)| == 2 * |steps|
    ensures Interleave(steps, start)[2 * k] == Execute(steps[k])
    ensures Interleave(steps, start)[2 * k + 1] == WriteUserVersion(Bumped(start, k + 1))
  {
    var n := |steps|;
    var init := steps[..n - 1];
    InterleaveLength(init, start);
    if k < n - 1 {
      InterleaveAt(init, start, k);
    }
  }

  lemma {:induction false} InterleaveLength(steps: seq<Migration>, start: Int32)
    ensures |Interleave(steps, start)| == 2 * |steps|
  {
    if steps != [] {
      InterleaveLength(steps[..|steps| - 1], start);
    }
  }

  /** One iteration of the loop body that succeeds. */
  function Advance(w: Work, m: Migration): (r: Work)
    ensures r.version == Inc(w.version)
    ensures |r.applied| == |w.applied| + 1 && r.applied[..|w.applied|] == w.applied && r.applied[|w.applied|] == m
    ensures |r.issued| == |w.issued| + 2 && r.issued[..|w.issued|] == w.issued
    ensures r.issued[|w.issued|] == Execute(m) && r.issued[|w.issued| + 1] == WriteUserVersion(r.version)
  {
    var next := Inc(w.version);
    Work(next, w.applied + [m], w.issued + [Execute(m), WriteUserVersion(next)])
  }

  /** The `foreach` loop from position k of `plan`, followed by the final
      cancellation check. */
  function RunSteps(plan: seq<Migration>, k: nat, w: Work, oracle: Oracle): (e: Exit)
    requires k <= |plan|
    ensures e.outcome != ArgNull
    ensures e.outcome.StepFailed? ==> k <= e.outcome.index < |plan| && oracle.FailsAt(e.outcome.index)
    ensures e.outcome == Ok ==> !oracle.CanceledAt(1 + |plan|)
    ensures e.outcome == Ok ==> |e.work.applied| == |w.applied| + |plan| - k
    ensures |e.work.applied| <= |w.applied| + |plan| - k
    decreases |plan| - k
  {
    if oracle.CanceledAt(1 + k) then Exit(Canceled, w)
    else if k == |plan| then Exit(Ok, w)
    else if oracle.FailsAt(k) then Exit(StepFailed(k), w.(issued := w.issued + [Execute(plan[k])]))
    else RunSteps(plan, k + 1, Advance(w, plan[k]), oracle)
  }

  /** The transaction as it stands after the first k steps of `plan`. */
  function WorkAfter(w: Work, plan: seq<Migration>, k: nat): Work
    requires k <= |plan|
  {
    Work(Bumped(w.version, k), w.applied + plan[..k], w.issued + Interleave(plan[..k], w.version))
  }

  /** The number of steps the loop completes: it stops at the first step whose
      cancellation check fires or which fails, or at the end of the plan. */
  function FirstStop(oracle: Oracle, k: nat, n: nat): (s: nat)
    requires k <= n
    ensures k <= s <= n
    ensures forall j :: k <= j < s ==> oracle.Passes(j)
    ensures s < n ==> !oracle.Passes(s)
    decreases n - k
  {
    if k == n || oracle.CanceledAt(1 + k) || oracle.FailsAt(k) then k
    else FirstStop(oracle, k + 1, n)
  }

  /** One more successful step extends the transaction by that step and its bump. */
  lemma WorkAfterStep(w: Work, plan: seq<Migration>, k: nat)
    requires k < |plan|
    ensures WorkAfter(w, plan, k + 1) == Advance(WorkAfter(w, plan, k), plan[k])
  {
    assert plan[..k + 1][..k] == plan[..k];
  }

  /** Running the loop from k is running it from the step it stops at, with the
      steps in between applied. */
  lemma {:induction false} RunStepsSkips(plan: seq<Migration>, k: nat, w: Work, oracle: Oracle)
    requires k <= |plan|
    ensures var s := FirstStop(oracle, k, |plan|);
      RunSteps(plan, k, w, oracle) == RunSteps(plan, s, WorkAfter(w, plan[k..], s - k), oracle)
    decreases |plan| - k
  {
    var s := FirstStop(oracle, k, |plan|);
    if s == k {
      assert plan[k..][..0] == [];
    } else {
      var w' := Advance(w, plan[k]);
      RunStepsSkips(plan, k + 1, w', oracle);
      assert FirstStop(oracle, k + 1, |plan|) == s;
      AdvanceThenWorkAfter(w, plan[k..], s - k);
      assert plan[k..][1..] == plan[k + 1..];
    }
  }

  /** Applying one step and then k - 1 more is applying k. */
  lemma {:induction false} AdvanceThenWorkAfter(w: Work, steps: seq<Migration>, k: nat)
    requires 1 <= k <= |steps|
    ensures WorkAfter(Advance(w, steps[0]), steps[1..], k - 1) == WorkAfter(w, steps, k)
  {
    var v := w.version;
    var rest := steps[1..][..k - 1];
    assert steps[..k] == [steps[0]] + rest;
    assert steps[..k][1..] == rest;
    BumpedShift(v, k);
    InterleaveShift(steps[..k], v);
    assert Interleave(steps[..k], v) == [Execute(steps[0]), WriteUserVersion(Inc(v))] + Interleave(rest, Inc(v));
    calc {
      WorkAfter(Advance(w, steps[0]), steps[1..], k - 1).issued;
      (w.issued + [Execute(steps[0]), WriteUserVersion(Inc(v))]) + Interleave(rest, Inc(v));
      w.issued + ([Execute(steps[0]), WriteUserVersion(Inc(v))] + Interleave(rest, Inc(v)));
      WorkAfter(w, steps, k).issued;
    }
    calc {
      WorkAfter(Advance(w, steps[0]), steps[1..], k - 1).applied;
      (w.applied + [steps[0]]) + rest;
      w.applied + ([steps[0]] + rest);
      WorkAfter(w, steps, k).applied;
    }
  }

  lemma {:induction false} BumpedShift(start: Int32, k: nat)
    requires k >= 1
    ensures Bumped(Inc(start), k - 1) == Bumped(start, k)
  {
    if k > 1 {
      BumpedShift(start, k - 1);
    }
  }

  /** Interleaving peels off the first step as well as the last. */
  lemma {:induction false} InterleaveShift(steps: seq<Migration>, start: Int32)
    requires steps != []
    ensures Interleave(steps, start)
      == [Execute(steps[0]), WriteUserVersion(Inc(start))] + Interleave(steps[1..], Inc(start))
  {
    var n := |steps|;
    var head := [Execute(steps[0]), WriteUserVersion(Inc(start))];
    if n == 1 {
      assert steps[..0] == [] && steps[1..] == [];
      assert Interleave(steps, start) == [] + [Execute(steps[0]), WriteUserVersion(Bumped(start, 1))];
    } else {
      var init := steps[..n - 1];
      var rest := steps[1..];
      var tail := [Execute(steps[n - 1]), WriteUserVersion(Bumped(start, n))];
      InterleaveShift(init, start);
      assert init[1..] == rest[..n - 2];
      BumpedShift(start, n);
      assert rest[n - 2] == steps[n - 1];
      var mid := Interleave(rest[..n - 2], Inc(start));
      assert Interleave(rest, Inc(start)) == mid + tail;
      assert Interleave(init, start) == head + mid;
      assert Interleave(steps, start) == Interleave(init, start) + tail;
      assert (head + mid) + tail == head + (mid + tail);
    }
  }

  /** The loop in closed form: where it stops and what the transaction then holds. */
  lemma RunStepsClosedForm(plan: seq<Migration>, w: Work, oracle: Oracle)
    ensures var s := FirstStop(oracle, 0, |plan|);
      var ws := WorkAfter(w, plan, s);
      RunSteps(plan, 0, w, oracle) ==
        if oracle.CanceledAt(1 + s) then Exit(Canceled, ws)
        else if s == |plan| then Exit(Ok, ws)
        else Exit(StepFailed(s), ws.(issued := ws.issued + [Execute(plan[s])]))
  {
    RunStepsSkips(plan, 0, w, oracle);
    assert plan[0..] == plan;
  }

  /** SqliteDatabase.MigrateAsync on the persisted state `db`. Whatever the
      outcome, the persisted state changes only if the run commits, and a null
      factory or a cancellation found before connecting touches nothing at all. */
  function Migrate(db: Store, factory: Option<Factory>, oracle: Oracle): (r: Run)
    ensures r.outcome != Ok ==> r.store == db
    ensures r.outcome == ArgNull <==> factory.None?
    ensures factory.None? || oracle.CanceledAt(0) ==> r.store == db && r.issued == []
  {
    if factory.None? then Run(ArgNull, db, [])
    else if oracle.CanceledAt(0) then Run(Canceled, db, [])
    else
      var plan := factory.value(db.userVersion);
      var exit := RunSteps(plan, 0, Work(db.userVersion, db.applied, [ReadUserVersion]), oracle);
      Run(exit.outcome,
          if exit.outcome == Ok then Store(exit.work.version, exit.work.applied) else db,
          exit.work.issued)
  }

  /** A run commits exactly when no cancellation check fires and no step fails;
      it then persists version `start + n` (with C# wrap-around) and the old log
      extended by the plan, and it has sent one version read, then each step in
      order, each followed at once by the write of its new version. */
  lemma MigrateCommits(db: Store, factory: Factory, oracle: Oracle)
    ensures var plan := factory(db.userVersion);
      var r := Migrate(db, Some(factory), oracle);
      && (r.outcome == Ok <==>
            !oracle.CanceledAt(0) && oracle.Survives(|plan|) && !oracle.CanceledAt(1 + |plan|))
      && (r.outcome == Ok ==>
            && r.store == Store(Bumped(db.userVersion, |plan|), db.applied + plan)
            && r.issued == [ReadUserVersion] + Interleave(plan, db.userVersion))
  {
    var plan := factory(db.userVersion);
    var w := Work(db.userVersion, db.applied, [ReadUserVersion]);
    RunStepsClosedForm(plan, w, oracle);
    assert plan[..|plan|] == plan;
  }

  /** A run ends with step i failing exactly when every earlier step ran and
      succeeded, no check up to step i fired, and step i throws. Then nothing is
      persisted — the version stays at `start`, not `start + i` — and no later
      step was sent. */
  lemma MigrateFailsAtStep(db: Store, factory: Factory, oracle: Oracle, i: nat)
    ensures var plan := factory(db.userVersion);
      var r := Migrate(db, Some(factory), oracle);
      && (r.outcome == StepFailed(i) <==>
            && !oracle.CanceledAt(0) && i < |plan| && oracle.Survives(i)
            && !oracle.CanceledAt(1 + i) && oracle.FailsAt(i))
      && (r.outcome == StepFailed(i) ==>
            && r.store == db
            && r.issued == [ReadUserVersion] + Interleave(plan[..i], db.userVersion) + [Execute(plan[i])])
  {
    var plan := factory(db.userVersion);
    var w := Work(db.userVersion, db.applied, [ReadUserVersion]);
    RunStepsClosedForm(plan, w, oracle);
    var s := FirstStop(oracle, 0, |plan|);
    if !oracle.CanceledAt(0) && i < |plan| && oracle.Survives(i) && !oracle.CanceledAt(1 + i) && oracle.FailsAt(i) {
      assert s == i by {
        assert !oracle.Passes(i);
      }
    }
  }

  /** A run ends canceled exactly when the check before connecting fires, or
      the check before some step k (or before Commit, k = n) fires after steps
      0 .. k - 1 all succeeded. Then nothing is persisted, and the statements
      sent are those of the first k steps. */
  lemma MigrateCanceled(db: Store, factory: Factory, oracle: Oracle)
    ensures var plan := factory(db.userVersion);
      var r := Migrate(db, Some(factory), oracle);
      && (r.outcome == Canceled <==>
            oracle.CanceledAt(0) ||
            exists k :: 0 <= k <= |plan| && oracle.Survives(k) && oracle.CanceledAt(1 + k))
      && (r.outcome == Canceled ==> r.store == db)
      && (forall k :: 0 <= k <= |plan| && !oracle.CanceledAt(0) && oracle.Survives(k) && oracle.CanceledAt(1 + k) ==>
            r.outcome == Canceled &&
            r.issued == [ReadUserVersion] + Interleave(plan[..k], db.userVersion))
  {
    var plan := factory(db.userVersion);
    var w := Work(db.userVersion, db.applied, [ReadUserVersion]);
    RunStepsClosedForm(plan, w, oracle);
    var s := FirstStop(oracle, 0, |plan|);
    forall k | 0 <= k <= |plan| && oracle.Survives(k) && oracle.CanceledAt(1 + k)
      ensures s == k
    {
      assert !oracle.Passes(k);
    }
    if Migrate(db, Some(factory), oracle).outcome == Canceled && !oracle.CanceledAt(0) {
      assert oracle.Survives(s) && oracle.CanceledAt(1 + s);
    }
  }

  /** An empty plan commits a no-op: unless a check fires, the outcome is Ok,
      the persisted state is unchanged and only the version was read. */
  lemma MigrateEmptyPlan(db: Store, factory: Factory, oracle: Oracle)
    requires factory(db.userVersion) == []
    ensures var r := Migrate(db, Some(factory), oracle);
      && r.store == db
      && (r.outcome == Ok <==> !oracle.CanceledAt(0) && !oracle.CanceledAt(1))
      && (r.outcome == Ok || r.outcome == Canceled)
      && r.issued == (if oracle.CanceledAt(0) then [] else [ReadUserVersion])
  {
  }

  /** The database file, as the engine sees it. */
  class SqliteDatabase {
    var userVersion: Int32
    var applied: seq<Migration>

    constructor (userVersion: Int32, applied: seq<Migration>)
      ensures this.userVersion == userVersion && this.applied == applied
    {
      this.userVersion := userVersion;
      this.applied := applied;
    }

    function Persisted(): Store
      reads this
    {
      Store(userVersion, applied)
    }

    /** Applies the factory's steps for the current version in one transaction
        and commits; any exception leaves the persisted state as it was. */
    method MigrateAsync(factory: Option<Factory>, oracle: Oracle) returns (outcome: Outcome, issued: seq<Statement>)
      modifies this
      ensures Run(outcome, Persisted(), issued) == Migrate(old(Persisted()), factory, oracle)
      ensures outcome != Ok ==> userVersion == old(userVersion) && applied == old(applied)
    {
      if factory.None? {
        return ArgNull, [];
      }
      if oracle.CanceledAt(0) {
        return Canceled, [];
      }
      // The transaction: a working copy of the persisted state.
      var txVersion, txApplied := userVersion, applied;
      issued := [ReadUserVersion];
      var version := txVersion;
      var migrations := factory.value(version);
      ghost var w0 := Work(version, txApplied, issued);
      var k := 0;
      while k < |migrations|
        invariant 0 <= k <= |migrations|
        invariant userVersion == old(userVersion) && applied == old(applied)
        invariant version == txVersion
        invariant Work(version, txApplied, issued) == WorkAfter(w0, migrations, k)
        invariant RunSteps(migrations, 0, w0, oracle) == RunSteps(migrations, k, Work(version, txApplied, issued), oracle)
      {
        if oracle.CanceledAt(1 + k) {
          return Canceled, issued;
        }
        var migration := migrations[k];
        ghost var before := Work(version, txApplied, issued);
        issued := issued + [Execute(migration)];
        if oracle.FailsAt(k) {
          return StepFailed(k), issued;
        }
        txApplied := txApplied + [migration];
        version := Inc(version);
        txVersion := version;
        issued := issued + [WriteUserVersion(version)];
        WorkAfterStep(w0, migrations, k);
        k := k + 1;
      }
      if oracle.CanceledAt(1 + k) {
        return Canceled, issued;
      }
      // Commit.
      userVersion, applied := txVersion, txApplied;
      outcome := Ok;
    }
  }
}
