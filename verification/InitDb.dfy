/**
 * initDb (server/src/db/init.js) on an install that may be legacy, as steps between which the process
 * may die: inventory, durable report, one commit per migration, reconcile, report again.
 */
module InitDb {
  import opened Options

  const FIRST_CANONICAL_SCHEMA: nat := 55

  datatype Outcome = Blocked | Ready | ReconciliationPending | Complete | Unreadable

  datatype Report = Report(outcome: Outcome, schemaBefore: nat)

  /** Where the process is; `report` is the lifecycleReport variable. */
  datatype Phase =
    | Down
    | Opened
    | Inventoried(report: Report)
    | Migrating(kept: Option<Report>)
    | Migrated(kept: Option<Report>)
    | Reconciling(report: Report)
    | Reconciled(report: Report)
    | Returned

  datatype State = State(
    phase: Phase,
    // durable
    applied: seq<nat>,
    report: Option<Report>,
    reconciled: bool,
    conflicts: bool,
    // what happened to the report: it was removed when only it could still ask for the reconcile
    lost: bool,
    // since the process was last started
    sawConflict: bool,
    migrationsRun: nat)

  function MaxOf(versions: seq<nat>): (m: nat)
    ensures forall v :: v in versions ==> v <= m
  {
    if versions == [] then 0
    else
      var rest := MaxOf(versions[..|versions| - 1]);
      var last := versions[|versions| - 1];
      assert versions == versions[..|versions| - 1] + [last];
      if last > rest then last else rest
  }

  /** SELECT MAX(version) FROM schema_version, 0 without rows. */
  function Schema(s: State): nat {
    MaxOf(s.applied)
  }

  predicate IsLegacy(schema: nat) {
    0 < schema < FIRST_CANONICAL_SCHEMA
  }

  /** The report asks for the reconcile to be retried. */
  predicate AsksRetry(r: Report) {
    IsLegacy(r.schemaBefore) && r.outcome in {Ready, ReconciliationPending}
  }

  /** The first shipped migration, in file order, that the table does not list. */
  function NextMigration(code: seq<nat>, applied: seq<nat>): (v: Option<nat>)
    ensures v.Some? ==> v.value in code && v.value !in applied
    ensures v.None? <==> forall c :: c in code ==> c in applied
  {
    if code == [] then None
    else if code[0] !in applied then Some(code[0])
    else NextMigration(code[1..], applied)
  }

  /** Start-up: the inventory on a legacy schema, the stored report on a canonical one. */
  function AfterOpen(s: State): State {
    if IsLegacy(Schema(s)) then
      var report := Report(if s.conflicts then Blocked else Ready, Schema(s));
      s.(phase := Inventoried(report), report := Some(report), sawConflict := s.conflicts)
    else if Schema(s) >= FIRST_CANONICAL_SCHEMA && s.report.Some? && s.report.value.outcome == Unreadable then
      s.(phase := Down)
    else if Schema(s) >= FIRST_CANONICAL_SCHEMA && s.report.Some? && AsksRetry(s.report.value) then
      s.(phase := Migrating(s.report))
    else
      s.(phase := Migrating(None))
  }

  /** runMigrations: refuse a newer schema, else commit the next migration, else done. */
  function AfterMigration(code: seq<nat>, s: State, kept: Option<Report>): State {
    var next := NextMigration(code, s.applied);
    if Schema(s) > MaxOf(code) then s.(phase := Down)
    else if next.Some? then
      s.(applied := s.applied + [next.value], migrationsRun := s.migrationsRun + 1)
    else s.(phase := Migrated(kept))
  }

  /** The one step the code takes next. */
  function Advance(code: seq<nat>, s: State): State {
    match s.phase
    case Down => s.(phase := Opened, sawConflict := false, migrationsRun := 0)
    case Opened => AfterOpen(s)
    case Inventoried(r) =>
      if r.outcome == Blocked then s.(phase := Down) else s.(phase := Migrating(Some(r)))
    case Migrating(kept) => AfterMigration(code, s, kept)
    case Migrated(kept) =>
      if kept.None? then s.(phase := Returned)
      else
        var r := kept.value.(outcome := ReconciliationPending);
        s.(phase := Reconciling(r), report := Some(r))
    case Reconciling(r) => s.(phase := Reconciled(r), reconciled := true)
    case Reconciled(r) => s.(phase := Returned, report := Some(r.(outcome := Complete)))
    case Returned => s
  }

  /** The reconcile is still owed, and only the report says so. */
  predicate IsOwed(s: State) {
    Schema(s) >= FIRST_CANONICAL_SCHEMA && !s.reconciled
  }

  /** A step of the code, a crash, or what may happen to the files while the process is down. */
  ghost predicate Next(code: seq<nat>, s: State, s': State) {
    || s' == Advance(code, s)
    || s' == s.(phase := Down)
    || (s.phase == Down && exists c :: s' == s.(conflicts := c))
    || (s.phase == Down && s.report.Some? && s' == s.(report := Some(s.report.value.(outcome := Unreadable))))
    || (s.phase == Down && s.report.Some? && s' == s.(report := None, lost := s.lost || IsOwed(s)))
  }

  /** An install on a legacy schema, with whatever report an earlier attempt left. */
  ghost predicate Init(s: State) {
    s.phase == Down && IsLegacy(Schema(s)) && !s.reconciled && !s.lost && !s.sawConflict && s.migrationsRun == 0
  }

  ghost predicate IsRun(code: seq<nat>, run: seq<State>) {
    run != [] && Init(run[0]) && forall i :: 0 <= i < |run| - 1 ==> Next(code, run[i], run[i + 1])
  }

  // ---- The invariant ----

  /** A report that will make the next start retry, or refuse to start. */
  predicate Guards(report: Option<Report>) {
    report.Some? && (AsksRetry(report.value) || report.value.outcome == Unreadable)
  }

  ghost predicate PhaseOk(code: seq<nat>, s: State) {
    match s.phase
    case Down => true
    case Opened => s.migrationsRun == 0 && !s.sawConflict
    case Inventoried(r) =>
      s.report == Some(r) && IsLegacy(r.schemaBefore) && s.migrationsRun == 0
      && (r.outcome == Blocked || (r.outcome == Ready && !s.sawConflict))
    case Migrating(kept) =>
      !s.sawConflict && if kept.Some? then s.report == kept && AsksRetry(kept.value) else s.reconciled || s.lost
    case Migrated(kept) =>
      !s.sawConflict && (forall c :: c in code ==> c in s.applied)
      && if kept.Some? then s.report == kept && AsksRetry(kept.value) else s.reconciled || s.lost
    case Reconciling(r) =>
      !s.sawConflict && (forall c :: c in code ==> c in s.applied) && s.report == Some(r) && AsksRetry(r)
    case Reconciled(r) => !s.sawConflict && (forall c :: c in code ==> c in s.applied) && s.reconciled
    case Returned => !s.sawConflict && (forall c :: c in code ==> c in s.applied) && (s.reconciled || s.lost)
  }

  ghost predicate Inv(code: seq<nat>, s: State) {
    && Schema(s) > 0
    && (IsOwed(s) && !s.lost ==> Guards(s.report))
    && (s.lost ==> IsOwed(s) && s.report == None)
    && (s.sawConflict ==> s.migrationsRun == 0)
    && PhaseOk(code, s)
  }

  lemma AppliedGrows(versions: seq<nat>, v: nat)
    ensures MaxOf(versions + [v]) == if v > MaxOf(versions) then v else MaxOf(versions)
  {
    assert (versions + [v])[..|versions|] == versions;
  }

  lemma AdvanceKeepsInv(code: seq<nat>, s: State)
    requires Inv(code, s)
    ensures Inv(code, Advance(code, s))
  {
    hide MaxOf, NextMigration;
    if s.phase.Migrating? {
      var next := NextMigration(code, s.applied);
      if next.Some? {
        AppliedGrows(s.applied, next.value);
      }
    }
  }

  lemma NextKeepsInv(code: seq<nat>, s: State, s': State)
    requires Inv(code, s) && Next(code, s, s')
    ensures Inv(code, s')
  {
    AdvanceKeepsInv(code, s);
  }

  lemma {:induction false} RunKeepsInv(code: seq<nat>, run: seq<State>, i: nat)
    requires IsRun(code, run) && i < |run|
    ensures Inv(code, run[i])
  {
    if i > 0 {
      RunKeepsInv(code, run, i - 1);
      assert Next(code, run[i - 1], run[i - 1 + 1]);
      NextKeepsInv(code, run[i - 1], run[i]);
    }
  }

  // ---- Main results ----

  /** Some step up to the state removed the report while the reconcile was owed. */
  ghost predicate RemovedWhileOwed(run: seq<State>, i: nat)
    requires i < |run|
  {
    exists j :: 0 <= j < i && IsRemoval(run[j], run[j + 1]) && IsOwed(run[j])
  }

  predicate IsRemoval(s: State, s': State) {
    s.report.Some? && s'.report.None?
  }

  lemma NextLoses(code: seq<nat>, s: State, s': State)
    requires Next(code, s, s')
    ensures s'.lost <==> s.lost || (IsRemoval(s, s') && IsOwed(s))
  {
    hide MaxOf, NextMigration;
  }

  lemma {:induction false} LostExactly(code: seq<nat>, run: seq<State>, i: nat)
    requires IsRun(code, run) && i < |run|
    ensures run[i].lost <==> RemovedWhileOwed(run, i)
  {
    if i > 0 {
      var j := i - 1;
      LostExactly(code, run, j);
      assert Next(code, run[j], run[j + 1]);
      NextLoses(code, run[j], run[j + 1]);
      hide Next, IsOwed, IsRemoval;
    }
  }

  /**
   * Crash safety: whatever crashes, restarts, operator edits, damaged and removed reports a legacy install goes
   * through, initDb returns only on a fully migrated schema, and reconciled exactly when nobody removed the report
   * while the reconcile was owed.
   */
  lemma ReturnsOnlyReconciled(code: seq<nat>, run: seq<State>, i: nat)
    requires IsRun(code, run) && i < |run|
    ensures run[i].phase == Returned ==>
              && (run[i].reconciled <==> !RemovedWhileOwed(run, i))
              && forall c :: c in code ==> c in run[i].applied
    ensures IsOwed(run[i]) && !RemovedWhileOwed(run, i) ==> Guards(run[i].report)
  {
    hide RemovedWhileOwed;
    RunKeepsInv(code, run, i);
    LostExactly(code, run, i);
  }

  ghost predicate Steps(code: seq<nat>, run: seq<State>) {
    forall i :: 0 <= i < |run| - 1 ==> Next(code, run[i], run[i + 1])
  }

  lemma StepsJoin(code: seq<nat>, a: seq<State>, b: seq<State>)
    requires a != [] && b != [] && Steps(code, a) && Steps(code, b) && Next(code, a[|a| - 1], b[0])
    ensures Steps(code, a + b)
  {
    hide Next;
  }

  /** A start at schema 1 that dies after migration 55. */
  lemma CrashedStart() returns (run: seq<State>)
    ensures run != [] && Init(run[0]) && Steps([1, 55], run)
    ensures run[|run| - 1] == State(Down, [1, 55], Some(Report(Ready, 1)), false, false, false, false, 1)
  {
    hide MaxOf, NextMigration;
    TwoMigrations();
    var r := Report(Ready, 1);
    var s := State(Down, [1], None, false, false, false, false, 0);
    var migrated := State(Migrating(Some(r)), [1, 55], Some(r), false, false, false, false, 1);
    run := [s, s.(phase := Opened), s.(phase := Inventoried(r), report := Some(r)),
            s.(phase := Migrating(Some(r)), report := Some(r)), migrated, migrated.(phase := Down)];
  }

  /** A start after that without the report. */
  lemma ReportlessStart() returns (run: seq<State>)
    ensures run != [] && Steps([1, 55], run)
    ensures run[0] == State(Down, [1, 55], None, false, false, true, false, 1)
    ensures run[|run| - 1].phase == Returned && !run[|run| - 1].reconciled
  {
    hide MaxOf, NextMigration;
    TwoMigrations();
    var s := State(Down, [1, 55], None, false, false, true, false, 1);
    var booted := s.(phase := Opened, migrationsRun := 0);
    run := [s, booted, booted.(phase := Migrating(None)), booted.(phase := Migrated(None)),
            booted.(phase := Returned)];
  }

  /** When the report goes between the two, initDb returns with the reconcile still owed. */
  lemma RemovedReportSkipsReconcile() returns (run: seq<State>)
    ensures IsRun([1, 55], run) && RemovedWhileOwed(run, |run| - 1)
    ensures run[|run| - 1].phase == Returned && !run[|run| - 1].reconciled
  {
    hide MaxOf, NextMigration, Steps, Advance;
    TwoMigrations();
    var first := CrashedStart();
    var second := ReportlessStart();
    StepsJoin([1, 55], first, second);
    run := first + second;
    var k := |first| - 1;
    assert IsRemoval(run[k], run[k + 1]) && IsOwed(run[k]);
    StepsAreRun(run);
  }

  lemma StepsAreRun(run: seq<State>)
    requires run != [] && Init(run[0]) && Steps([1, 55], run)
    ensures IsRun([1, 55], run)
  {
    hide Next, Init;
  }

  lemma TwoMigrations()
    ensures MaxOf([1]) == 1 && MaxOf([1, 55]) == 55 && [1] + [55] == [1, 55]
    ensures NextMigration([1, 55], [1]) == Some(55) && NextMigration([1, 55], [1, 55]) == None
  {
    assert [1, 55][..1] == [1] && [1][..0] == [] && [1, 55][1..] == [55] && [55][1..] == [];
    assert MaxOf([]) == 0;
  }

  /** A start whose inventory found a conflict runs no migration. */
  lemma ConflictRunsNoMigration(code: seq<nat>, run: seq<State>, i: nat)
    requires IsRun(code, run) && i < |run| && run[i].sawConflict
    ensures run[i].migrationsRun == 0
  {
    RunKeepsInv(code, run, i);
  }

  function Attempt(code: seq<nat>, s: State, steps: nat): State {
    if steps == 0 then s else Advance(code, Attempt(code, s, steps - 1))
  }

  function MissingSet(code: seq<nat>, applied: seq<nat>): set<nat> {
    set c | c in code && c !in applied
  }

  function Missing(code: seq<nat>, applied: seq<nat>): nat {
    |MissingSet(code, applied)|
  }

  lemma OneFewerMissing(code: seq<nat>, applied: seq<nat>, v: nat)
    requires v in code && v !in applied
    ensures Missing(code, applied + [v]) == Missing(code, applied) - 1
  {
    var before, after := MissingSet(code, applied), MissingSet(code, applied + [v]);
    assert after == before - {v};
  }

  lemma AttemptFrom(code: seq<nat>, s: State, a: nat, b: nat)
    ensures Attempt(code, s, a + b) == Attempt(code, Attempt(code, s, a), b)
  {
    if b > 0 {
      AttemptFrom(code, s, a, b - 1);
    }
  }

  lemma AttemptFirst(code: seq<nat>, s: State, n: nat)
    ensures Attempt(code, s, n + 1) == Attempt(code, Advance(code, s), n)
  {
    hide Advance;
  }

  /** The migrations left are run one by one until none is missing. */
  lemma {:induction false} MigrationsFinish(code: seq<nat>, s: State, kept: Option<Report>)
    requires s.phase == Migrating(kept) && Schema(s) <= MaxOf(code)
    ensures var end := Attempt(code, s, Missing(code, s.applied) + 1);
            end.phase == Migrated(kept) && end.reconciled == s.reconciled && end.lost == s.lost
    decreases Missing(code, s.applied)
  {
    hide Missing, MaxOf, Attempt;
    var next := NextMigration(code, s.applied);
    var left := Missing(code, s.applied);
    AttemptFirst(code, s, left);
    if next.None? {
      NoneMissing(code, s.applied);
      AttemptNone(code, Advance(code, s));
    } else {
      OneFewerMissing(code, s.applied, next.value);
      AppliedGrows(s.applied, next.value);
      MigrationsFinish(code, Advance(code, s), kept);
    }
  }

  lemma AttemptNone(code: seq<nat>, s: State)
    ensures Attempt(code, s, 0) == s
  {}

  lemma NoneMissing(code: seq<nat>, applied: seq<nat>)
    requires forall c :: c in code ==> c in applied
    ensures Missing(code, applied) == 0
  {
    assert MissingSet(code, applied) == {};
  }

  ghost predicate Finishes(code: seq<nat>, s: State, steps: nat) {
    var end := Attempt(code, s, steps);
    end.phase == Returned && (end.reconciled <==> !s.lost)
  }

  /**
   * An uninterrupted start finishes the upgrade: with no conflict on a legacy schema, a readable report
   * on a canonical one and no schema newer than the code. It is reconciled then unless the report was lost.
   */
  lemma UninterruptedStartReturns(code: seq<nat>, s: State)
    requires Inv(code, s) && s.phase == Down && Schema(s) <= MaxOf(code)
    requires IsLegacy(Schema(s)) ==> !s.conflicts
    requires Schema(s) >= FIRST_CANONICAL_SCHEMA ==> s.report.None? || s.report.value.outcome != Unreadable
    ensures exists steps :: Finishes(code, s, steps)
  {
    hide Missing, MaxOf, NextMigration, Attempt, Advance, Inv;
    var lead := StartsMigrating(code, s);
    var start := Attempt(code, s, lead);
    var left := Missing(code, start.applied) + 1;
    MigrationsFinish(code, start, start.phase.kept);
    AttemptFrom(code, s, lead, left);
    FinishFrom(code, s, lead + left, start.phase.kept);
  }

  lemma StartsMigrating(code: seq<nat>, s: State) returns (lead: nat)
    requires Inv(code, s) && s.phase == Down && Schema(s) <= MaxOf(code)
    requires IsLegacy(Schema(s)) ==> !s.conflicts
    requires Schema(s) >= FIRST_CANONICAL_SCHEMA ==> s.report.None? || s.report.value.outcome != Unreadable
    ensures var start := Attempt(code, s, lead);
            && start.phase.Migrating? && start.applied == s.applied
            && start.lost == s.lost && (s.lost ==> start.phase.kept.None? && !start.reconciled)
            && (start.phase.kept.None? && !s.lost ==> start.reconciled)
  {
    hide MaxOf, NextMigration, AfterMigration;
    var booted := Advance(code, s);
    var read := Advance(code, booted);
    assert Attempt(code, s, 1) == Advance(code, Attempt(code, s, 0)) == booted;
    assert Attempt(code, s, 2) == Advance(code, Attempt(code, s, 1)) == read;
    assert Attempt(code, s, 3) == Advance(code, read);
    lead := if read.phase.Inventoried? then 3 else 2;
  }

  lemma FinishFrom(code: seq<nat>, s: State, n: nat, kept: Option<Report>)
    requires var end := Attempt(code, s, n);
             && end.phase == Migrated(kept) && end.lost == s.lost
             && (if s.lost then kept.None? && !end.reconciled else kept.None? ==> end.reconciled)
    ensures exists steps :: Finishes(code, s, steps)
  {
    var a, b, c := Attempt(code, s, n + 1), Attempt(code, s, n + 2), Attempt(code, s, n + 3);
    assert a == Advance(code, Attempt(code, s, n)) && b == Advance(code, a) && c == Advance(code, b);
    if kept.None? {
      assert Finishes(code, s, n + 1);
    } else {
      assert Finishes(code, s, n + 3);
    }
  }
}
