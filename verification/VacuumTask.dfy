/** The vacuum task's code: each method is proved against the specification of the same deletion or pass. */
module VacuumTask {
  import opened Results
  import opened IdSets
  import opened LogTable
  import opened Dictionary
  import opened Queries
  import opened Timestamps
  import opened Vacuum

  lemma TwoFiltersSelect(rows: map<int, Row>, f: Filter, g: Filter, cat: Catalog, lookup: Lookup)
    requires ValidFilter(f, cat) && f.op in COMPARISONS && f.field !in cat.compressed
    requires ValidFilter(g, cat) && g.op in COMPARISONS && g.field !in cat.compressed
    ensures WhereOf([f, g], cat, lookup).Ok?
    ensures forall id :: id in rows ==>
      (id in Matching(rows, WhereOf([f, g], cat, lookup).value) <==>
         Compare(f.op, CellOf(id, rows[id], f.field), Bound(f.value))
               && Compare(g.op, CellOf(id, rows[id], g.field), Bound(g.value)))
  {
    OneFilterSelects(rows, f, cat, lookup);
    var first, second := Cmp(f.field, f.op, Bound(f.value)), Cmp(g.field, g.op, Bound(g.value));
    assert [f, g][..1] == [f] && [f, g][1] == g;
    assert WhereOf([f, g], cat, lookup) == Ok(All([first] + [second]));
    forall id | id in rows
      ensures Selects(All([first] + [second]), id, rows[id])
         <==> Selects(All([first]), id, rows[id]) && Holds1(second, id, rows[id])
    {
      SelectsMore([first], second, id, rows[id]);
    }
  }

  /** Two sets of present ids with the same members are the same set. */
  lemma SameMembers(rows: map<int, Row>, a: set<int>, b: set<int>)
    requires forall id :: id in rows ==> (id in a <==> id in b)
    requires (forall id :: id in a ==> id in rows) && (forall id :: id in b ==> id in rows)
    ensures a == b
  {
    Subset(a, b);
    Subset(b, a);
  }

  function IdFilter(r: int): Filter { Filter(ID, "<=", JInt(r)) }

  function AgeFilter(cutoff: string, c: Settings): Filter { Filter(c.catalog.timestamp, "<=", JText(cutoff)) }

  lemma IdFilterSelects(rows: map<int, Row>, r: int, c: Settings, lookup: Lookup)
    requires SettingsOk(c)
    ensures WhereOf([IdFilter(r)], c.catalog, lookup).Ok?
    ensures Matching(rows, WhereOf([IdFilter(r)], c.catalog, lookup).value) == UpToId(rows, r)
  {
    OneFilterSelects(rows, IdFilter(r), c.catalog, lookup);
    SameMembers(rows, Matching(rows, WhereOf([IdFilter(r)], c.catalog, lookup).value), UpToId(rows, r));
  }

  lemma AgeFilterSelects(rows: map<int, Row>, cutoff: string, c: Settings, lookup: Lookup)
    requires SettingsOk(c) && c.catalog.HasColumn(c.catalog.timestamp)
    ensures WhereOf([AgeFilter(cutoff, c)], c.catalog, lookup).Ok?
    ensures Matching(rows, WhereOf([AgeFilter(cutoff, c)], c.catalog, lookup).value) == Stale(rows,
          c.catalog.timestamp, cutoff)
  {
    OneFilterSelects(rows, AgeFilter(cutoff, c), c.catalog, lookup);
    SameMembers(rows, Matching(rows, WhereOf([AgeFilter(cutoff, c)], c.catalog, lookup).value),
          Stale(rows, c.catalog.timestamp, cutoff));
  }

  lemma AgeAndIdFiltersSelect(rows: map<int, Row>, cutoff: string, r: int, c: Settings, lookup: Lookup)
    requires SettingsOk(c) && c.catalog.HasColumn(c.catalog.timestamp)
    ensures WhereOf([AgeFilter(cutoff, c), IdFilter(r)], c.catalog, lookup).Ok?
    ensures Matching(rows, WhereOf([AgeFilter(cutoff, c), IdFilter(r)], c.catalog, lookup).value)
         == Stale(rows, c.catalog.timestamp, cutoff) * UpToId(rows, r)
  {
    TwoFiltersSelect(rows, AgeFilter(cutoff, c), IdFilter(r), c.catalog, lookup);
    SameMembers(rows, Matching(rows, WhereOf([AgeFilter(cutoff, c), IdFilter(r)], c.catalog, lookup).value),
                Stale(rows, c.catalog.timestamp, cutoff) * UpToId(rows, r));
  }

  class VacuumedDatabase {
    const settings: Settings
    const lookup: Lookup
    var rows: map<int, Row>
    var usedPages: nat
    var freePages: nat

    constructor (settings: Settings, lookup: Lookup, s: Store)
      ensures this.settings == settings && this.lookup == lookup && State() == s
    {
      this.settings, this.lookup := settings, lookup;
      rows, usedPages, freePages := s.rows, s.usedPages, s.freePages;
    }

    function State(): Store
      reads this
    {
      Store(rows, usedPages, freePages)
    }

    method EstimateAvgRowBytes() returns (avg: nat)
      requires settings.pageSize >= 1
      ensures avg == AvgRowBytes(State(), settings.pageSize) && avg >= 1
    {
      var lo := GetMinLogId(rows);
      var hi := GetMaxLogId(rows);
      var rowcnt := if rows.Keys == {} then 0 else hi - lo + 1;
      avg := usedPages * settings.pageSize / (if rowcnt < 1 then 1 else rowcnt);
      if avg == 0 {
        avg := 1;
      }
    }

    method BudgetBound(limitMb: nat) returns (id: int)
      requires settings.pageSize >= 1
      ensures id == BudgetId(State(), limitMb, settings.pageSize)
    {
      var avgRowBytes := EstimateAvgRowBytes();
      var minId := GetMinLogId(rows);
      id := minId + limitMb * MB / avgRowBytes - 1;
    }

    method ExcessBound(limitMb: nat) returns (removeMaxId: int)
      requires settings.pageSize >= 1 && SizeBytes(State(), settings.pageSize) >= 1
      ensures removeMaxId == ExcessId(State(), settings.targetBytes, limitMb, settings.pageSize)
    {
      var db := usedPages * settings.pageSize;
      var minId := GetMinLogId(rows);
      var maxId := GetMaxLogId(rows);
      var rowcnt := maxId - minId + 1;
      removeMaxId := minId + Trunc(rowcnt * (db - settings.targetBytes), db) - 1;
      if limitMb > 0 {
        var budgetId := BudgetBound(limitMb);
        removeMaxId := MinInt(removeMaxId, budgetId);
      }
    }

    /** freed: how many pages SQLite moves to the freelist. */
    method DeleteLogs(filters: seq<Filter>, freed: nat) returns (removed: nat)
      requires WhereOf(filters, settings.catalog, lookup).Ok?
      modifies this
      ensures var doomed := Matching(old(rows), WhereOf(filters, settings.catalog, lookup).value);
              State() == AfterDelete(old(State()), doomed, freed) && removed == |doomed|
    {
      var doomed := Matching(rows, WhereOf(filters, settings.catalog, lookup).value);
      removed := |doomed|;
      if exists id :: id in rows && id in doomed {
        var f := if freed < usedPages then freed else usedPages;
        rows := rows - doomed;
        usedPages := usedPages - f;
        freePages := freePages + f;
      }
    }

    method RemoveStaleLogs(cutoff: string, limitMb: nat, freed: nat) returns (removed: nat)
      requires SettingsOk(settings) && settings.catalog.HasColumn(settings.catalog.timestamp)
      modifies this
      ensures var doomed := StaleDoomed(old(State()), cutoff, limitMb, settings);
              State() == AfterDelete(old(State()), doomed, freed) && removed == |doomed|
    {
      var least := GetMinTimestamp(rows, settings.catalog.timestamp);
      if least == "" {
        return 0;
      }
      if !TextLess(least, cutoff) {
        return 0;
      }
      if limitMb == 0 {
        AgeFilterSelects(rows, cutoff, settings, lookup);
        removed := DeleteLogs([AgeFilter(cutoff, settings)], freed);
        return;
      }
      var maxId := GetMaxLogId(rows);
      var budgetId := BudgetBound(limitMb);
      var removeMaxId := MinInt(maxId, budgetId);
      AgeAndIdFiltersSelect(rows, cutoff, removeMaxId, settings, lookup);
      hide WhereOf, Matching, Stale, UpToId;
      removed := DeleteLogs([AgeFilter(cutoff, settings), IdFilter(removeMaxId)], freed);
    }

    method RemoveExcessiveLogs(limitMb: nat, freed: nat) returns (removed: nat)
      requires SettingsOk(settings)
      modifies this
      ensures var doomed := ExcessDoomed(old(State()), limitMb, settings);
              State() == AfterDelete(old(State()), doomed, freed) && removed == |doomed|
    {
      if usedPages * settings.pageSize <= settings.maxBytes {
        return 0;
      }
      var removeMaxId := ExcessBound(limitMb);
      IdFilterSelects(rows, removeMaxId, settings, lookup);
      hide WhereOf, Matching, UpToId;
      removed := DeleteLogs([IdFilter(removeMaxId)], freed);
    }

    method IncrementalVacuumPass(maxMb: nat) returns (remain: nat)
      requires settings.pageSize >= 1 && maxMb == settings.passMb
      modifies this
      ensures State() == IncrementalPass(old(State()), settings) && remain == freePages
    {
      if freePages == 0 {
        return 0;
      }
      var budget := maxMb * MB / settings.pageSize;
      var pages := MinInt(budget, freePages);
      if pages < 1 || pages >= freePages {
        freePages := 0;
      } else {
        freePages := freePages - pages;
      }
      remain := freePages;
    }

    method RunPass(i: Input)
      requires SettingsOk(settings)
      modifies this
      ensures State() == Pass(old(State()), i, settings)
    {
      var limitMb := if settings.mode == IncrementalVacuum then settings.passMb else 0;
      if settings.mode == IncrementalVacuum {
        var remain := IncrementalVacuumPass(settings.passMb);
        if remain > 0 {
          return;
        }
      }
      if settings.catalog.HasColumn(settings.catalog.timestamp) {
        var aged := RemoveStaleLogs(i.cutoff, limitMb, i.freedByAge);
      }
      var excessive := RemoveExcessiveLogs(limitMb, i.freedBySize);
      if settings.mode == FullVacuum {
        freePages := 0;
      }
    }
  }
}
