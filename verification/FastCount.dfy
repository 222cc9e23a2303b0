/** The quick row count MAX(id) - MIN(id) + 1: an upper bound always, exact while vacuum only cuts prefixes. */
module FastCount {
  import opened IdSets
  import opened LogTable
  import opened Backlogs
  import opened Dictionary
  import W = Writer
  import opened Storage
  import opened Queries
  import opened LiveTail
  import opened Service
  import opened Accounting
  import opened Runs

  /** No id is missing between two present ones. */
  ghost predicate Dense(rows: map<int, Row>) {
    forall a, b, x :: a in rows && b in rows && a < x < b ==> x in rows
  }

  /** The estimate never undercounts, is zero exactly on an empty table, and is the count exactly when the
      ids are dense. */
  lemma EstimateBoundsCount(rows: map<int, Row>)
    ensures |rows| <= EstimateRowCount(rows)
    ensures EstimateRowCount(rows) == 0 <==> |rows| == 0
    ensures |rows| == EstimateRowCount(rows) <==> Dense(rows)
  {
    var ids := rows.Keys;
    assert |rows| == |ids|;
    if ids != {} {
      var lo, hi := MinOf(ids), MaxOf(ids);
      assert lo in ids && hi in ids && lo <= hi;
      forall x | x in ids ensures lo <= x < hi + 1 {
      }
      SizeWithin(ids, lo, hi + 1);
      RangeHolds(lo, hi + 1);
      DenseFillsRange(rows, lo, hi);
      SubsetSize({lo}, ids);
    } else {
      assert forall x :: x in rows ==> x in rows.Keys;
    }
  }

  lemma DenseFillsRange(rows: map<int, Row>, lo: int, hi: int)
    requires lo in rows && hi in rows && forall x :: x in rows ==> lo <= x <= hi
    ensures Dense(rows) <==> rows.Keys == Range(lo, hi + 1)
  {
    RangeHolds(lo, hi + 1);
    if Dense(rows) {
      forall x | x in Range(lo, hi + 1) ensures x in rows.Keys {
      }
      forall x | x in rows.Keys ensures x in Range(lo, hi + 1) {
        assert x in rows;
      }
      Subset(Range(lo, hi + 1), rows.Keys);
      Subset(rows.Keys, Range(lo, hi + 1));
    }
    if rows.Keys == Range(lo, hi + 1) {
      forall a, b, x | a in rows && b in rows && a < x < b ensures x in rows {
        assert x in Range(lo, hi + 1);
        assert x in rows.Keys;
      }
    }
  }

  /** With AUTOINCREMENT a non-empty table still holds the last id assigned. */
  ghost predicate TopPresent(rows: map<int, Row>, sequence: nat, cat: Catalog) {
    cat.autoincrement && rows.Keys != {} ==> sequence in rows
  }

  ghost predicate Compact(rows: map<int, Row>, sequence: nat, cat: Catalog) {
    IdsSound(rows, sequence) && Dense(rows) && TopPresent(rows, sequence, cat)
  }

  lemma InsertKeepsCompact(rows: map<int, Row>, sequence: nat, cat: Catalog, row: Row)
    requires Compact(rows, sequence, cat)
    ensures var id := NextId(rows, sequence, cat);
            Compact(rows[id := row], if id > sequence then id else sequence, cat)
  {
    var id := NextId(rows, sequence, cat);
    NextRowIdIsAbove(rows, sequence, cat.autoincrement);
    if rows.Keys != {} {
      assert MaxOf(rows.Keys) in rows;
      if cat.autoincrement {
        assert sequence in rows.Keys;
      }
      assert id - 1 in rows;
    } else {
      assert forall x :: x in rows ==> x in rows.Keys;
    }
    var after := rows[id := row];
    forall a, b, x | a in after && b in after && a < x < b ensures x in after {
      assert b == id ==> x <= id - 1;
    }
  }

  ghost function NextId(rows: map<int, Row>, sequence: nat, cat: Catalog): int {
    W.NextRowId(rows, sequence, cat.autoincrement)
  }

  lemma {:induction false} BatchKeepsCompact(b: W.Batch, cat: Catalog, cols: seq<Column>, entries: seq<LogEntry>,
                                             faults: W.Faults)
    requires Compact(b.rows, b.sequence, cat)
    ensures var after := W.InsertEntries(b, cat, cols, entries, faults);
            Compact(after.rows, after.sequence, cat)
  {
    if entries != [] {
      var k := |entries| - 1;
      BatchKeepsCompact(b, cat, cols, entries[..k], faults);
      var before := W.InsertEntries(b, cat, cols, entries[..k], faults);
      var e := W.EncodeRow(before.tx, cat, cols, entries[k]);
      if e.outcome.Encoded? {
        InsertKeepsCompact(before.rows, before.sequence, cat, e.outcome.row);
      }
      hide Dense, IdsSound, W.EncodeRow, W.NextRowId;
    }
  }

  /** The ids removed are all those up to some id. */
  ghost predicate CutsPrefix(rows: map<int, Row>, ids: set<int>) {
    exists r: int :: UpTo(rows, ids, r)
  }

  ghost predicate UpTo(rows: map<int, Row>, ids: set<int>, r: int) {
    forall id :: id in rows ==> (id in ids <==> id <= r)
  }

  lemma PrefixCutKeepsCompact(rows: map<int, Row>, ids: set<int>, sequence: nat, cat: Catalog)
    requires Compact(rows, sequence, cat) && CutsPrefix(rows, ids)
    ensures Compact(rows - ids, sequence, cat)
  {
    var r: int :| UpTo(rows, ids, r);
    var after := rows - ids;
    forall a, b, x | a in after && b in after && a < x < b ensures x in after {
      assert x in rows;
    }
    if cat.autoincrement && after.Keys != {} {
      var x := Pick(after.Keys);
      assert x in rows && x in rows.Keys;
      assert sequence in rows && x <= sequence;
    }
  }

  ghost predicate OnlyPrefixCuts(events: seq<Event>, c: Config)
    requires c.backlogMax >= 1
  {
    events != [] ==>
      var before, e := events[..|events| - 1], events[|events| - 1];
      OnlyPrefixCuts(before, c) && (e.DeleteJob? ==> CutsPrefix(Run(before, c).tables.rows, e.ids))
  }

  lemma {:induction false} TablesStayCompact(events: seq<Event>, c: Config)
    requires c.backlogMax >= 1 && OnlyPrefixCuts(events, c)
    ensures var t := Run(events, c).tables; Compact(t.rows, t.sequence, c.catalog)
  {
    if events != [] {
      var before, e := events[..|events| - 1], events[|events| - 1];
      TablesStayCompact(before, c);
      StepKeepsCompact(Run(before, c), e, c);
    }
  }

  lemma StepKeepsCompact(s: State, e: Event, c: Config)
    requires c.backlogMax >= 1 && Compact(s.tables.rows, s.tables.sequence, c.catalog)
    requires e.DeleteJob? ==> CutsPrefix(s.tables.rows, e.ids)
    ensures var t := Step(s, e, c).tables; Compact(t.rows, t.sequence, c.catalog)
  {
    hide Mark, Compact, CutsPrefix, MaxLogId, EntriesOf, W.InsertEntries, SessionStep, Load;
    match e
    case InsertJob(faults, maxIdFails) =>
      if s.flush.Holding? {
        BatchKeepsCompact(W.Begun(s.tables, s.lookup, faults), c.catalog, c.catalog.DataColumns(),
              EntriesOf(s.arrivals, s.flush.batch), faults);
      }
    case DeleteJob(ids) => PrefixCutKeepsCompact(s.tables.rows, ids, s.tables.sequence, c.catalog);
    case _ =>
  }

  /** The fast count refines the true count over every run of the service in which vacuum cuts prefixes, for
      either kind of id column and through failed batches and restarts. */
  lemma FastCountIsExact(events: seq<Event>, c: Config)
    requires c.backlogMax >= 1 && OnlyPrefixCuts(events, c)
    ensures EstimateRowCount(Run(events, c).tables.rows) == |Run(events, c).tables.rows|
  {
    TablesStayCompact(events, c);
    EstimateBoundsCount(Run(events, c).tables.rows);
  }

  /** Every row has a timestamp, and timestamps never decrease with the id. */
  predicate TimestampsFollow(rows: map<int, Row>, timestamp: string) {
    && (forall id :: id in rows ==> CellOf(id, rows[id], timestamp) != Null)
    && (forall a, b :: a in rows && b in rows && a < b ==>
          !CellLess(CellOf(b, rows[b], timestamp), CellOf(a, rows[a], timestamp)))
  }

  /** The row's timestamp is at or past the cutoff. */
  predicate Aged(rows: map<int, Row>, timestamp: string, cutoff: Cell, id: int) {
    id in rows && Compare("<=", CellOf(id, rows[id], timestamp), cutoff)
  }

  lemma OlderIsAgedToo(rows: map<int, Row>, timestamp: string, cutoff: Cell, a: int, b: int)
    requires TimestampsFollow(rows, timestamp) && a in rows && Aged(rows, timestamp, cutoff, b) && a < b
    ensures Aged(rows, timestamp, cutoff, a)
  {
    if CellLess(cutoff, CellOf(a, rows[a], timestamp)) {
      CellOrder(cutoff, CellOf(a, rows[a], timestamp), CellOf(b, rows[b], timestamp));
    }
  }

  /** A deletion by age cuts a prefix when every row has a timestamp and timestamps never decrease with the id. */
  lemma AgeCutIsPrefix(rows: map<int, Row>, timestamp: string, cutoff: Cell, ids: set<int>)
    requires TimestampsFollow(rows, timestamp)
    requires forall id :: id in rows ==> (id in ids <==> Aged(rows, timestamp, cutoff, id))
    ensures CutsPrefix(rows, ids)
  {
    hide Aged, TimestampsFollow;
    forall a, b | a in rows && b in rows && a < b && b in ids ensures a in ids {
      OlderIsAgedToo(rows, timestamp, cutoff, a, b);
    }
    OldestCutIsPrefix(rows, ids);
  }

  lemma OldestCutIsPrefix(rows: map<int, Row>, ids: set<int>)
    requires forall a, b :: a in rows && b in rows && a < b && b in ids ==> a in ids
    ensures CutsPrefix(rows, ids)
  {
    var gone := set id | id in rows && id in ids;
    if gone == {} {
      if rows.Keys == {} {
        assert UpTo(rows, ids, 0) by {
          assert forall x :: x in rows ==> x in rows.Keys;
        }
      } else {
        var r := MinOf(rows.Keys) - 1;
        forall id | id in rows ensures id in ids <==> id <= r {
          assert id in rows.Keys;
          assert id in ids ==> id in gone;
        }
        assert UpTo(rows, ids, r);
      }
    } else {
      var r := MaxOf(gone);
      forall id | id in rows ensures id in ids <==> id <= r {
        assert id in ids ==> id in gone;
        assert r in gone;
      }
      assert UpTo(rows, ids, r);
    }
  }
}
