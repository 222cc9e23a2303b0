/** Runs of the service in which rows are deleted by passes of the vacuum task. */
module VacuumRuns {
  import opened IdSets
  import opened LogTable
  import opened Queries
  import opened FastCount
  import opened Service
  import opened Timestamps
  import opened Vacuum

  /** Of the rows, exactly the doomed ones go. */
  predicate Takes(rows: map<int, Row>, ids: set<int>, doomed: set<int>) {
    forall id :: id in rows ==> (id in ids <==> id in doomed)
  }

  ghost predicate TakesStale(s: Store, cutoff: string, limitMb: nat, ids: set<int>, v: Settings) {
    Takes(s.rows, ids, StaleDoomed(s, cutoff, limitMb, v))
  }

  ghost predicate TakesExcess(s: Store, limitMb: nat, ids: set<int>, v: Settings) {
    Takes(s.rows, ids, ExcessDoomed(s, limitMb, v))
  }

  /** One DELETE of the vacuum task, by age or by size, whatever the clock, the budget and the pages of the file. */
  ghost predicate VacuumJob(rows: map<int, Row>, ids: set<int>, v: Settings) {
    || (exists s: Store, cutoff: string, limitMb: nat :: s.rows == rows && TakesStale(s, cutoff, limitMb, ids, v))
    || (exists s: Store, limitMb: nat :: s.rows == rows && TakesExcess(s, limitMb, ids, v))
  }

  lemma VacuumJobCutsPrefix(rows: map<int, Row>, ids: set<int>, v: Settings)
    requires TimestampsFollow(rows, v.catalog.timestamp) && VacuumJob(rows, ids, v)
    ensures CutsPrefix(rows, ids)
  {
    hide StaleDoomed, ExcessDoomed, CutsPrefix, TimestampsFollow;
    if s: Store, cutoff: string, limitMb: nat :| s.rows == rows && TakesStale(s, cutoff, limitMb, ids, v) {
      VacuumCutsPrefixes(s, cutoff, limitMb, v);
      SameCut(rows, ids, StaleDoomed(s, cutoff, limitMb, v));
    } else {
      var s: Store, limitMb: nat :| s.rows == rows && TakesExcess(s, limitMb, ids, v);
      VacuumCutsPrefixes(s, "", limitMb, v);
      SameCut(rows, ids, ExcessDoomed(s, limitMb, v));
    }
  }

  lemma SameCut(rows: map<int, Row>, ids: set<int>, doomed: set<int>)
    requires Takes(rows, ids, doomed) && CutsPrefix(rows, doomed)
    ensures CutsPrefix(rows, ids)
  {
    var r: int :| UpTo(rows, doomed, r);
    assert UpTo(rows, ids, r);
  }

  /** The rows after two such DELETEs, one after the other. */
  ghost predicate TwoDeletions(rows: map<int, Row>, first: set<int>, second: set<int>, after: map<int, Row>,
                               v: Settings) {
    VacuumJob(rows, first, v) && VacuumJob(rows - first, second, v) && after == rows - first - second
  }

  /** Deleting the doomed rows, seen from outside. */
  lemma DeletionTakes(s: Store, doomed: set<int>, freed: nat)
    ensures AfterDelete(s, doomed, freed).rows == s.rows - doomed
  {
    if forall id :: id in s.rows ==> id !in doomed {
      assert s.rows - doomed == s.rows;
    }
  }

  lemma NothingIsAJob(rows: map<int, Row>, v: Settings)
    ensures VacuumJob(rows, {}, v)
  {
    var s := Store(rows, 0, 0);
    assert StaleDoomed(s, "", 0, v) == {};
    assert TakesStale(s, "", 0, {}, v);
  }

  /** A pass of the vacuum task is two deletions, the first by age; other connections may see the rows between. */
  lemma PassIsTwoDeletions(s: Store, i: Input, v: Settings) returns (first: set<int>, second: set<int>)
    requires v.pageSize >= 1
    ensures TwoDeletions(s.rows, first, second, Pass(s, i, v).rows, v)
  {
    var limit := if v.mode == IncrementalVacuum then v.passMb else 0;
    var s1 := if v.mode == IncrementalVacuum then IncrementalPass(s, v) else s;
    first, second := {}, {};
    hide StaleDoomed, ExcessDoomed, VacuumJob;
    NothingIsAJob(s.rows, v);
    if v.mode == IncrementalVacuum && s1.freePages > 0 {
      assert s.rows - {} == s.rows;
    } else {
      var s2 := s1;
      if v.catalog.HasColumn(v.catalog.timestamp) {
        first := StaleDoomed(s1, i.cutoff, limit, v);
        s2 := AfterDelete(s1, first, i.freedByAge);
        DeletionTakes(s1, first, i.freedByAge);
        StaleIsAJob(s1, i.cutoff, limit, v);
      } else {
        assert s.rows - {} == s.rows;
      }
      second := ExcessDoomed(s2, limit, v);
      DeletionTakes(s2, second, i.freedBySize);
      ExcessIsAJob(s2, limit, v);
      hide AfterDelete;
    }
  }

  lemma StaleIsAJob(s: Store, cutoff: string, limitMb: nat, v: Settings)
    ensures VacuumJob(s.rows, StaleDoomed(s, cutoff, limitMb, v), v)
  {
    hide StaleDoomed;
    assert TakesStale(s, cutoff, limitMb, StaleDoomed(s, cutoff, limitMb, v), v);
  }

  lemma ExcessIsAJob(s: Store, limitMb: nat, v: Settings)
    ensures VacuumJob(s.rows, ExcessDoomed(s, limitMb, v), v)
  {
    hide ExcessDoomed;
    assert TakesExcess(s, limitMb, ExcessDoomed(s, limitMb, v), v);
  }

  /** A pass that takes a row takes all older ones, when timestamps never decrease with the id. */
  lemma PassTakesOldestFirst(s: Store, i: Input, v: Settings, a: int, b: int)
    requires v.pageSize >= 1 && TimestampsFollow(s.rows, v.catalog.timestamp)
    requires a in s.rows && b in s.rows && a < b
    ensures b !in Pass(s, i, v).rows ==> a !in Pass(s, i, v).rows
  {
    hide Pass, VacuumJob, CellOf;
    var first, second := PassIsTwoDeletions(s, i, v);
    var between := s.rows - first;
    assert TimestampsFollow(between, v.catalog.timestamp);
    VacuumJobCutsPrefix(s.rows, first, v);
    VacuumJobCutsPrefix(between, second, v);
    hide TimestampsFollow;
    var r: int :| UpTo(s.rows, first, r);
    var q: int :| UpTo(between, second, q);
  }

  /** Every deletion of the run was one of the vacuum task, over rows whose timestamps never decrease with the id. */
  ghost predicate OnlyVacuumed(events: seq<Event>, c: Config, v: Settings)
    requires c.backlogMax >= 1
  {
    events != [] ==>
      var before, e := events[..|events| - 1], events[|events| - 1];
      && OnlyVacuumed(before, c, v)
      && (e.DeleteJob? ==>
            var rows := Run(before, c).tables.rows;
            TimestampsFollow(rows, v.catalog.timestamp) && VacuumJob(rows, e.ids, v))
  }

  lemma {:induction false} VacuumsCutPrefixes(events: seq<Event>, c: Config, v: Settings)
    requires c.backlogMax >= 1 && OnlyVacuumed(events, c, v)
    ensures OnlyPrefixCuts(events, c)
  {
    hide Run, VacuumJob, CutsPrefix, TimestampsFollow;
    if events != [] {
      var before, e := events[..|events| - 1], events[|events| - 1];
      VacuumsCutPrefixes(before, c, v);
      if e.DeleteJob? {
        VacuumJobCutsPrefix(Run(before, c).tables.rows, e.ids, v);
      }
    }
  }

  /** In every run in which only the vacuum task deletes, with any interleaving of inserts, failures and restarts, any
      settings and either kind of id column, the fast count is the row count, also between the two deletions of a
      pass. */
  lemma VacuumedRunsCountExactly(events: seq<Event>, c: Config, v: Settings)
    requires c.backlogMax >= 1 && OnlyVacuumed(events, c, v)
    ensures EstimateRowCount(Run(events, c).tables.rows) == |Run(events, c).tables.rows|
  {
    VacuumsCutPrefixes(events, c, v);
    FastCountIsExact(events, c);
  }
}
