/**
 Startup migrations: each is one transaction, they are tried one per call in ascending version order, and the
 startup loop runs until a call applies nothing. Statements are opaque: exec is what one does to the schema.
 */
module Migrations {
  import opened Results

  datatype Migration<Stmt> = Migration(version: int, rollout: seq<Stmt>, rollback: seq<Stmt>)

  datatype Db<S> = Db(schema: S, versions: set<int>)

  type Exec<!S, !Stmt> = (S, Stmt) -> Option<S>

  /** Statements in order; the first error undoes them all. */
  function RunAll<S, Stmt>(exec: Exec<S, Stmt>, schema: S, stmts: seq<Stmt>): Option<S> {
    if stmts == [] then Some(schema)
    else
      match RunAll(exec, schema, stmts[..|stmts| - 1])
      case None => None
      case Some(s) => exec(s, stmts[|stmts| - 1])
  }

  // ── What running statements means, told with exec alone ────────────────────

  /** The states a list of statements passes through, each made from the one before by the next statement. */
  predicate Leads<S(==), Stmt>(exec: Exec<S, Stmt>, stmts: seq<Stmt>, states: seq<S>) {
    |states| == |stmts| + 1 && forall k :: 0 <= k < |stmts| ==> exec(states[k], stmts[k]) == Some(states[k + 1])
  }

  ghost predicate Makes<S(!new), Stmt>(exec: Exec<S, Stmt>, schema: S, stmts: seq<Stmt>, made: S) {
    exists states :: Leads(exec, stmts, states) && states[0] == schema && states[|stmts|] == made
  }

  /** Some statement fails in the state that those before it lead to. */
  ghost predicate Breaks<S(!new), Stmt>(exec: Exec<S, Stmt>, schema: S, stmts: seq<Stmt>) {
    exists k, s :: BreaksAt(exec, schema, stmts, k, s)
  }

  ghost predicate BreaksAt<S(!new), Stmt>(exec: Exec<S, Stmt>, schema: S, stmts: seq<Stmt>, k: nat, s: S) {
    k < |stmts| && Makes(exec, schema, stmts[..k], s) && exec(s, stmts[k]) == None
  }

  lemma {:induction false} LeadingRuns<S(!new), Stmt>(exec: Exec<S, Stmt>, stmts: seq<Stmt>, states: seq<S>)
    requires Leads(exec, stmts, states)
    ensures RunAll(exec, states[0], stmts) == Some(states[|stmts|])
  {
    if stmts != [] {
      var k := |stmts| - 1;
      LeadingRuns(exec, stmts[..k], states[..k + 1]);
    }
  }

  lemma {:induction false} RunningLeads<S(!new), Stmt>(exec: Exec<S, Stmt>, schema: S, stmts: seq<Stmt>)
    ensures match RunAll(exec, schema, stmts)
            case Some(t) => Makes(exec, schema, stmts, t)
            case None => Breaks(exec, schema, stmts)
  {
    if stmts == [] {
      assert Leads(exec, stmts, [schema]);
    } else {
      var k := |stmts| - 1;
      RunningLeads(exec, schema, stmts[..k]);
      match RunAll(exec, schema, stmts[..k])
      case None => BreaksLonger(exec, schema, stmts);
      case Some(s) =>
        var states :| Leads(exec, stmts[..k], states) && states[0] == schema && states[k] == s;
        match exec(s, stmts[k])
        case None => assert BreaksAt(exec, schema, stmts, k, s);
        case Some(t) => assert Leads(exec, stmts, states + [t]);
    }
  }

  lemma BreaksLonger<S(!new), Stmt>(exec: Exec<S, Stmt>, schema: S, stmts: seq<Stmt>)
    requires stmts != [] && Breaks(exec, schema, stmts[..|stmts| - 1])
    ensures Breaks(exec, schema, stmts)
  {
    var k: nat, s :| BreaksAt(exec, schema, stmts[..|stmts| - 1], k, s);
    assert stmts[..|stmts| - 1][..k] == stmts[..k];
    assert BreaksAt(exec, schema, stmts, k, s);
  }

  /** Running statements gives the state they lead to, one by one from the first; and fails if and only if one of them
      fails where the ones before it have led. */
  lemma RunAllExactlyWhen<S(!new), Stmt>(exec: Exec<S, Stmt>, schema: S, stmts: seq<Stmt>, made: S)
    ensures RunAll(exec, schema, stmts) == Some(made) <==> Makes(exec, schema, stmts, made)
    ensures RunAll(exec, schema, stmts) == None <==> Breaks(exec, schema, stmts)
  {
    RunningLeads(exec, schema, stmts);
    if Makes(exec, schema, stmts, made) {
      var states :| Leads(exec, stmts, states) && states[0] == schema && states[|stmts|] == made;
      LeadingRuns(exec, stmts, states);
    }
    if Breaks(exec, schema, stmts) {
      var k: nat, s :| BreaksAt(exec, schema, stmts, k, s);
      var states :| Leads(exec, stmts[..k], states) && states[0] == schema && states[k] == s;
      LeadingRuns(exec, stmts[..k], states);
      assert stmts[..k + 1][..k] == stmts[..k];
      FailedPrefix(exec, schema, stmts, k + 1);
    }
  }

  predicate SortedByVersion<Stmt>(ms: seq<Migration<Stmt>>) {
    forall i, j :: 0 <= i < j < |ms| ==> ms[i].version <= ms[j].version
  }

  /** Versions above the start version, which is -1 at startup. */
  predicate Due<Stmt>(m: Migration<Stmt>, versions: set<int>) {
    m.version > -1 && m.version !in versions
  }

  /** The one-pass meaning of startup: each due migration in turn, up to the first that fails. */
  function RolledOut<S, Stmt>(exec: Exec<S, Stmt>, ms: seq<Migration<Stmt>>, db: Db<S>): Db<S> {
    if ms == [] then db
    else if !Due(ms[0], db.versions) then RolledOut(exec, ms[1..], db)
    else
      match RunAll(exec, db.schema, ms[0].rollout)
      case None => db
      case Some(s) => RolledOut(exec, ms[1..], Db(s, db.versions + {ms[0].version}))
  }

  /** The version of the migration that stops the pass, if one does. */
  function FirstFailure<S, Stmt>(exec: Exec<S, Stmt>, ms: seq<Migration<Stmt>>, db: Db<S>): Option<int> {
    if ms == [] then None
    else if !Due(ms[0], db.versions) then FirstFailure(exec, ms[1..], db)
    else
      match RunAll(exec, db.schema, ms[0].rollout)
      case None => Some(ms[0].version)
      case Some(s) => FirstFailure(exec, ms[1..], Db(s, db.versions + {ms[0].version}))
  }

  /** The migrations the pass applies. */
  function AppliedBy<S, Stmt>(exec: Exec<S, Stmt>, ms: seq<Migration<Stmt>>, db: Db<S>): seq<Migration<Stmt>> {
    if ms == [] then []
    else if !Due(ms[0], db.versions) then AppliedBy(exec, ms[1..], db)
    else
      match RunAll(exec, db.schema, ms[0].rollout)
      case None => []
      case Some(s) => [ms[0]] + AppliedBy(exec, ms[1..], Db(s, db.versions + {ms[0].version}))
  }

  predicate Before(version: int, failure: Option<int>) {
    failure.None? || version < failure.value
  }

  predicate Configured<Stmt>(ms: seq<Migration<Stmt>>, version: int) {
    exists k :: 0 <= k < |ms| && ms[k].version == version
  }

  // ── What startup leaves ────────────────────────────────────────────────────

  /** The versions applied afterwards are the old ones and exactly the configured ones above -1 and below the
      first failing one; the failing one is not among them. */
  lemma {:induction false} AppliedExactlyBelowFirstFailure<S, Stmt>(exec: Exec<S, Stmt>, ms: seq<Migration<Stmt>>,
                                                                    db: Db<S>, v: int)
    requires SortedByVersion(ms)
    ensures v in RolledOut(exec, ms, db).versions <==>
      v in db.versions || (Configured(ms, v) && v > -1 && Before(v, FirstFailure(exec, ms, db)))
    ensures var f := FirstFailure(exec, ms, db);
      f.Some? ==> Configured(ms, f.value) && f.value > -1 && f.value !in RolledOut(exec, ms, db).versions
  {
    hide RunAll;
    if ms != [] {
      ConfiguredHead(ms, v);
      if !Due(ms[0], db.versions) {
        AppliedExactlyBelowFirstFailure(exec, ms[1..], db, v);
        FailureIsLater(exec, ms[1..], db, ms[0].version);
      } else {
        match RunAll(exec, db.schema, ms[0].rollout)
        case None =>
          assert ms[0].version == ms[0].version && Configured(ms, ms[0].version);
          assert Configured(ms, v) ==> v >= ms[0].version;
        case Some(s) =>
          var next := Db(s, db.versions + {ms[0].version});
          AppliedExactlyBelowFirstFailure(exec, ms[1..], next, v);
          FailureIsLater(exec, ms[1..], next, ms[0].version);
      }
      var f := FirstFailure(exec, ms, db);
      if f.Some? {
        ConfiguredHead(ms, f.value);
      }
    }
  }

  /** The rollout of a configured migration with this version breaks in this schema. */
  ghost predicate StopsAt<S(!new), Stmt>(exec: Exec<S, Stmt>, ms: seq<Migration<Stmt>>, schema: S, version: int) {
    exists k :: 0 <= k < |ms| && ms[k].version == version > -1 && Breaks(exec, schema, ms[k].rollout)
  }

  ghost predicate NoneDue<Stmt>(ms: seq<Migration<Stmt>>, versions: set<int>) {
    forall k :: 0 <= k < |ms| ==> !Due(ms[k], versions)
  }

  /** The pass stops only at a migration whose rollout breaks in the schema it leaves; where nothing stops it, nothing
      configured stays due. */
  lemma {:induction false} StopsOnlyAtFailure<S(!new), Stmt>(exec: Exec<S, Stmt>, ms: seq<Migration<Stmt>>, db: Db<S>)
    ensures var f, after := FirstFailure(exec, ms, db), RolledOut(exec, ms, db);
            && db.versions <= after.versions
            && (if f.None? then NoneDue(ms, after.versions) else StopsAt(exec, ms, after.schema, f.value))
  {
    hide RunAll, Breaks;
    if ms != [] {
      if !Due(ms[0], db.versions) {
        StopsOnlyAtFailure(exec, ms[1..], db);
      } else {
        RunAllExactlyWhen(exec, db.schema, ms[0].rollout, db.schema);
        match RunAll(exec, db.schema, ms[0].rollout)
        case None => assert ms[0].version > -1;
        case Some(s) => StopsOnlyAtFailure(exec, ms[1..], Db(s, db.versions + {ms[0].version}));
      }
      StopInTail(exec, ms, RolledOut(exec, ms, db), FirstFailure(exec, ms, db));
    }
  }

  lemma StopInTail<S(!new), Stmt>(exec: Exec<S, Stmt>, ms: seq<Migration<Stmt>>, after: Db<S>, f: Option<int>)
    requires ms != []
    ensures f.Some? && StopsAt(exec, ms[1..], after.schema, f.value) ==> StopsAt(exec, ms, after.schema, f.value)
    ensures !Due(ms[0], after.versions) && NoneDue(ms[1..], after.versions) ==> NoneDue(ms, after.versions)
  {
    hide Breaks;
    assert forall k :: 1 <= k < |ms| ==> ms[k] == ms[1..][k - 1];
    if f.Some? && StopsAt(exec, ms[1..], after.schema, f.value) {
      var k :| 0 <= k < |ms[1..]| && ms[1..][k].version == f.value > -1
               && Breaks(exec, after.schema, ms[1..][k].rollout);
      assert ms[k + 1] == ms[1..][k];
    }
  }

  lemma ConfiguredHead<Stmt>(ms: seq<Migration<Stmt>>, v: int)
    requires ms != []
    ensures Configured(ms, v) <==> ms[0].version == v || Configured(ms[1..], v)
  {
    if Configured(ms, v) && ms[0].version != v {
      var k :| 0 <= k < |ms| && ms[k].version == v;
      assert ms[1..][k - 1].version == v;
    }
    if Configured(ms[1..], v) {
      var k :| 0 <= k < |ms| - 1 && ms[1..][k].version == v;
      assert ms[k + 1].version == v;
    }
  }

  /** A migration that fails comes no earlier than the versions before it, and is not one already applied. */
  lemma {:induction false} FailureIsLater<S, Stmt>(exec: Exec<S, Stmt>, ms: seq<Migration<Stmt>>, db: Db<S>, low: int)
    requires forall k :: 0 <= k < |ms| ==> low <= ms[k].version
    requires low <= -1 || low in db.versions
    ensures FirstFailure(exec, ms, db).Some? ==> low < FirstFailure(exec, ms, db).value
  {
    hide RunAll;
    if ms != [] {
      if !Due(ms[0], db.versions) {
        FailureIsLater(exec, ms[1..], db, low);
      } else {
        match RunAll(exec, db.schema, ms[0].rollout)
        case None =>
        case Some(s) => FailureIsLater(exec, ms[1..], Db(s, db.versions + {ms[0].version}), low);
      }
    }
  }

  /** The statements of a list of migrations, one after the other. */
  function Statements<Stmt>(ms: seq<Migration<Stmt>>): seq<Stmt> {
    if ms == [] then [] else ms[0].rollout + Statements(ms[1..])
  }

  lemma {:induction false} RunAllAppend<S, Stmt>(exec: Exec<S, Stmt>, schema: S, a: seq<Stmt>, b: seq<Stmt>)
    ensures RunAll(exec, schema, a + b) ==
      match RunAll(exec, schema, a) { case None => None case Some(s) => RunAll(exec, s, b) }
  {
    if b == [] {
      assert a + b == a;
    } else {
      var k := |b| - 1;
      assert (a + b)[..|a + b| - 1] == a + b[..k];
      RunAllAppend(exec, schema, a, b[..k]);
    }
  }

  /** The schema afterwards is what the rollouts of the applied migrations, in strictly ascending version order
      and each version once, make of the schema before. */
  lemma {:induction false} SchemaIsFoldOfApplied<S, Stmt>(exec: Exec<S, Stmt>, ms: seq<Migration<Stmt>>, db: Db<S>)
    requires SortedByVersion(ms)
    ensures RunAll(exec, db.schema, Statements(AppliedBy(exec, ms, db))) == Some(RolledOut(exec, ms, db).schema)
    ensures AppliedWell(AppliedBy(exec, ms, db), ms, db.versions, RolledOut(exec, ms, db).versions)
  {
    if ms != [] {
      if !Due(ms[0], db.versions) {
        SchemaIsFoldOfApplied(exec, ms[1..], db);
        TailAppliedWell(AppliedBy(exec, ms[1..], db), ms, db.versions, RolledOut(exec, ms[1..], db).versions);
        hide AppliedWell, RunAll;
      } else {
        match RunAll(exec, db.schema, ms[0].rollout)
        case None =>
        case Some(s) =>
          var next := Db(s, db.versions + {ms[0].version});
          SchemaIsFoldOfApplied(exec, ms[1..], next);
          var rest := AppliedBy(exec, ms[1..], next);
          HeadRuns(exec, db.schema, ms[0], s, rest);
          VersionsGrow(exec, ms[1..], next, ms[0].version);
          HeadAppliedWell(ms, rest, db.versions, RolledOut(exec, ms[1..], next).versions);
          hide AppliedWell, RunAll, Statements;
      }
    }
  }

  lemma TailAppliedWell<Stmt>(a: seq<Migration<Stmt>>, ms: seq<Migration<Stmt>>, before: set<int>, after: set<int>)
    requires ms != [] && SortedByVersion(ms) && AppliedWell(a, ms[1..], before, after)
    ensures AppliedWell(a, ms, before, after)
  {
    forall i | 0 <= i < |a| ensures a[i] in ms {
      InTail(ms, a[i]);
    }
  }

  /** Applied in ascending order, each configured, due before and recorded after. */
  ghost predicate AppliedWell<Stmt>(a: seq<Migration<Stmt>>, ms: seq<Migration<Stmt>>, before: set<int>,
        after: set<int>) {
    && (forall i, j :: 0 <= i < j < |a| ==> a[i].version < a[j].version)
    && (forall i :: 0 <= i < |a| ==> a[i] in ms && Due(a[i], before) && a[i].version in after)
  }

  lemma HeadRuns<S, Stmt>(exec: Exec<S, Stmt>, schema: S, m: Migration<Stmt>, s: S, rest: seq<Migration<Stmt>>)
    requires RunAll(exec, schema, m.rollout) == Some(s)
    ensures RunAll(exec, schema, Statements([m] + rest)) == RunAll(exec, s, Statements(rest))
  {
    assert ([m] + rest)[1..] == rest;
    RunAllAppend(exec, schema, m.rollout, Statements(rest));
    hide RunAll;
  }

  lemma HeadAppliedWell<Stmt>(ms: seq<Migration<Stmt>>, rest: seq<Migration<Stmt>>, before: set<int>, after: set<int>)
    requires ms != [] && SortedByVersion(ms) && Due(ms[0], before) && ms[0].version in after
    requires AppliedWell(rest, ms[1..], before + {ms[0].version}, after)
    ensures AppliedWell([ms[0]] + rest, ms, before, after)
  {
    forall i | 0 <= i < |rest| ensures rest[i] in ms && ms[0].version < rest[i].version {
      InTail(ms, rest[i]);
    }
  }

  lemma InTail<Stmt>(ms: seq<Migration<Stmt>>, m: Migration<Stmt>)
    requires ms != [] && m in ms[1..] && SortedByVersion(ms)
    ensures m in ms && ms[0].version <= m.version
  {
    var k :| 0 <= k < |ms| - 1 && ms[1..][k] == m;
    assert ms[k + 1] == m;
  }

  lemma {:induction false} VersionsGrow<S, Stmt>(exec: Exec<S, Stmt>, ms: seq<Migration<Stmt>>, db: Db<S>, v: int)
    requires v in db.versions
    ensures v in RolledOut(exec, ms, db).versions
  {
    hide RunAll;
    if ms != [] {
      if !Due(ms[0], db.versions) {
        VersionsGrow(exec, ms[1..], db, v);
      } else {
        match RunAll(exec, db.schema, ms[0].rollout)
        case None =>
        case Some(s) => VersionsGrow(exec, ms[1..], Db(s, db.versions + {ms[0].version}), v);
      }
    }
  }

  /** Starting again changes nothing: what was applied is skipped and what failed fails again. */
  lemma {:induction false} RestartAppliesNothing<S, Stmt>(exec: Exec<S, Stmt>, ms: seq<Migration<Stmt>>, db: Db<S>)
    requires SortedByVersion(ms)
    ensures RolledOut(exec, ms, RolledOut(exec, ms, db)) == RolledOut(exec, ms, db)
  {
    hide RunAll;
    if ms != [] {
      if !Due(ms[0], db.versions) {
        RestartAppliesNothing(exec, ms[1..], db);
        if ms[0].version > -1 {
          VersionsGrow(exec, ms[1..], db, ms[0].version);
        }
      } else {
        match RunAll(exec, db.schema, ms[0].rollout)
        case None =>
        case Some(s) =>
          var next := Db(s, db.versions + {ms[0].version});
          RestartAppliesNothing(exec, ms[1..], next);
          VersionsGrow(exec, ms[1..], next, ms[0].version);
      }
    }
  }

  // ── One migration per call ─────────────────────────────────────────────────

  /** The first due migration of the list, or its length. */
  function FirstDue<Stmt>(ms: seq<Migration<Stmt>>, versions: set<int>): (k: nat)
    ensures k <= |ms| && (forall i :: 0 <= i < k ==> !Due(ms[i], versions)) && (k < |ms| ==> Due(ms[k], versions))
  {
    if ms == [] || Due(ms[0], versions) then 0 else 1 + FirstDue(ms[1..], versions)
  }

  /** Applying the first due migration leaves the rest of the pass as it was. */
  lemma {:induction false} OneStep<S, Stmt>(exec: Exec<S, Stmt>, ms: seq<Migration<Stmt>>, db: Db<S>)
    ensures var k := FirstDue(ms, db.versions);
      if k == |ms| then RolledOut(exec, ms, db) == db
      else match RunAll(exec, db.schema, ms[k].rollout) {
        case None => RolledOut(exec, ms, db) == db
        case Some(s) => RolledOut(exec, ms, Db(s, db.versions + {ms[k].version})) == RolledOut(exec, ms, db)
      }
  {
    hide RunAll;
    if ms != [] && !Due(ms[0], db.versions) {
      OneStep(exec, ms[1..], db);
      var k := FirstDue(ms[1..], db.versions);
      assert FirstDue(ms, db.versions) == k + 1;
      assert k < |ms| - 1 ==> ms[1..][k] == ms[k + 1];
    }
  }

  /** How many configured migrations have no applied version. */
  function Pending<Stmt>(ms: seq<Migration<Stmt>>, versions: set<int>): nat {
    if ms == [] then 0 else (if ms[0].version in versions then 0 else 1) + Pending(ms[1..], versions)
  }

  lemma {:induction false} ApplyingLowersPending<Stmt>(ms: seq<Migration<Stmt>>, versions: set<int>, v: int)
    ensures Pending(ms, versions + {v}) <= Pending(ms, versions)
    ensures v !in versions && Configured(ms, v) ==> Pending(ms, versions + {v}) < Pending(ms, versions)
  {
    if ms != [] {
      ApplyingLowersPending(ms[1..], versions, v);
      ConfiguredHead(ms, v);
    }
  }

  class MigratedDatabase<S(!new), Stmt> {
    const exec: Exec<S, Stmt>
    var schema: S
    var versions: set<int>

    constructor (exec: Exec<S, Stmt>, db: Db<S>)
      ensures this.exec == exec && State() == db
    {
      this.exec := exec;
      schema, versions := db.schema, db.versions;
    }

    function State(): Db<S>
      reads this
    {
      Db(schema, versions)
    }

    method RunStatements(stmts: seq<Stmt>) returns (ok: bool)
      modifies this`schema
      ensures ok == RunAll(exec, old(schema), stmts).Some?
      ensures ok ==> RunAll(exec, old(schema), stmts) == Some(schema)
    {
      for k := 0 to |stmts|
        invariant RunAll(exec, old(schema), stmts[..k]) == Some(schema)
      {
        assert stmts[..k + 1][..k] == stmts[..k];
        var next := exec(schema, stmts[k]);
        if next.None? {
          FailedPrefix(exec, old(schema), stmts, k + 1);
          return false;
        }
        schema := next.value;
      }
      assert stmts[..|stmts|] == stmts;
      ok := true;
    }

    /** In a transaction: all its statements and the version, or nothing. */
    method ApplyMigration(version: int, statements: seq<Stmt>) returns (ok: bool)
      modifies this
      ensures if version in old(versions) then ok && State() == old(State())
        else match RunAll(exec, old(schema), statements) {
          case None => !ok && State() == old(State())
          case Some(s) => ok && State() == Db(s, old(versions) + {version})
        }
      ensures version !in old(versions) ==>
        if Breaks(exec, old(schema), statements) then !ok && schema == old(schema) && versions == old(versions)
        else ok && Makes(exec, old(schema), statements, schema) && versions == old(versions) + {version}
    {
      if version in versions {
        return true;
      }
      var before := schema;
      ok := RunStatements(statements);
      RunAllExactlyWhen(exec, before, statements, schema);
      if ok {
        versions := versions + {version};
      } else {
        schema := before;
      }
    }

    method RollbackMigration(version: int, statements: seq<Stmt>) returns (ok: bool)
      modifies this
      ensures match RunAll(exec, old(schema), statements) {
          case None => !ok && State() == old(State())
          case Some(s) => ok && State() == Db(s, old(versions) - {version})
        }
      ensures
        if Breaks(exec, old(schema), statements) then !ok && schema == old(schema) && versions == old(versions)
        else ok && Makes(exec, old(schema), statements, schema) && versions == old(versions) - {version}
    {
      var before := schema;
      ok := RunStatements(statements);
      RunAllExactlyWhen(exec, before, statements, schema);
      if ok {
        versions := versions - {version};
      } else {
        schema := before;
      }
    }
  }

  lemma {:induction false} FailedPrefix<S, Stmt>(exec: Exec<S, Stmt>, schema: S, stmts: seq<Stmt>, k: nat)
    requires k <= |stmts| && RunAll(exec, schema, stmts[..k]) == None
    ensures RunAll(exec, schema, stmts) == None
  {
    assert stmts == stmts[..k] + stmts[k..];
    RunAllAppend(exec, schema, stmts[..k], stmts[k..]);
  }

  class MigrationManager<S(!new), Stmt> {
    const db: MigratedDatabase<S, Stmt>
    const migrations: seq<Migration<Stmt>>

    /** sorted: what the library sort by version makes of the configured list. */
    constructor (db: MigratedDatabase<S, Stmt>, configured: seq<Migration<Stmt>>, sorted: seq<Migration<Stmt>>)
      requires SortedByVersion(sorted) && multiset(sorted) == multiset(configured)
      ensures this.db == db && migrations == sorted
    {
      this.db, migrations := db, sorted;
    }

    method ApplyPendingMigrations() returns (ok: bool)
      modifies db
      ensures ok ==> RolledOut(db.exec, migrations, db.State()) == RolledOut(db.exec, migrations, old(db.State()))
      ensures ok ==> Pending(migrations, db.versions) < Pending(migrations, old(db.versions))
      ensures !ok ==> db.State() == old(db.State()) == RolledOut(db.exec, migrations, old(db.State()))
    {
      var applied := db.versions;
      OneStep(db.exec, migrations, db.State());
      hide RolledOut, RunAll, FirstDue;
      for k := 0 to |migrations|
        invariant k <= FirstDue(migrations, applied)
        invariant db.State() == old(db.State())
      {
        var m := migrations[k];
        if m.version <= -1 {
          continue;
        }
        if m.version in applied {
          continue;
        }
        ok := db.ApplyMigration(m.version, m.rollout);
        ApplyingLowersPending(migrations, applied, m.version);
        assert Configured(migrations, m.version);
        return;
      }
      ok := false;
    }

    /** The startup loop: terminates, and leaves what one pass over the sorted list would. */
    method Initialize()
      modifies db
      ensures db.State() == RolledOut(db.exec, migrations, old(db.State()))
    {
      hide RolledOut, Pending;
      var more := true;
      while more
        invariant RolledOut(db.exec, migrations, db.State()) == RolledOut(db.exec, migrations, old(db.State()))
        invariant !more ==> db.State() == RolledOut(db.exec, migrations, old(db.State()))
        decreases Pending(migrations, db.versions), more
      {
        more := ApplyPendingMigrations();
      }
    }
  }
}
