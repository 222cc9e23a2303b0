/** What one transaction of the writer guarantees: sound ids, sound cells, and a dictionary in step with them. */
module Storage {
  import opened Results
  import opened IdSets
  import opened LogTable
  import opened Dictionary
  import opened Writer

  /** A stored cell stands for the entry's value: in a compressed column through a persisted dictionary row, which
      holds as much of the text as the table keeps. */
  predicate CellFor(entry: LogEntry, column: string, cell: Cell, cat: Catalog, dict: seq<DictRow>) {
    var raw := Raw(entry, column);
    if column in cat.compressed && raw != JNull
    then cell.Int? && DictRow(column, cat.Kept(StoredText(raw)), cell.n) in dict
    else cell == Bound(raw)
  }

  predicate Named(cols: seq<Column>, name: string) { exists c :: c in cols && c.name == name }

  predicate CellsFor(entry: LogEntry, row: Row, cat: Catalog, cols: seq<Column>, dict: seq<DictRow>) {
    && (forall c :: c in cols ==>
          && c.name in row && CellFor(entry, c.name, row[c.name], cat, dict)
          && (c.notNull ==> Raw(entry, c.name) != JNull))
    && (forall name :: name in row ==> Named(cols, name))
  }

  predicate RowFor(entry: LogEntry, row: Row, cat: Catalog, dict: seq<DictRow>) {
    CellsFor(entry, row, cat, cat.DataColumns(), dict)
  }

  /** Every id in a compressed column of the row is that of the entry's text in memory. */
  ghost predicate RowDecodes(entry: LogEntry, row: Row, cat: Catalog, lookup: Lookup) {
    forall name :: name in row && name in cat.compressed && Raw(entry, name) != JNull ==>
      row[name].Int? && Holds(lookup, DictRow(name, StoredText(Raw(entry, name)), row[name].n))
  }

  /** Ids are positive and never above the greatest id ever assigned. */
  predicate IdsSound(rows: map<int, Row>, sequence: nat) {
    forall id :: id in rows ==> 1 <= id <= sequence
  }

  lemma MoreDictionaryKeepsCells(entry: LogEntry, row: Row, cat: Catalog, cols: seq<Column>, dict: seq<DictRow>,
                                 more: seq<DictRow>)
    requires CellsFor(entry, row, cat, cols, dict) && dict <= more
    ensures CellsFor(entry, row, cat, cols, more)
  {
    forall r | r in dict ensures r in more {
      var i :| 0 <= i < |dict| && dict[i] == r;
      assert more[i] == r;
    }
  }

  ghost predicate TxGrew(before: Tx, after: Tx, cat: Catalog) {
    InStep(after.lookup, after.dict, cat) && before.dict <= after.dict && Remembers(before.lookup, after.lookup)
  }

  lemma AssignGrowsTx(tx: Tx, cat: Catalog, column: string, value: string)
    requires InStep(tx.lookup, tx.dict, cat)
    ensures TxGrew(tx, Assign(tx, column, value, cat.Kept(value)).tx, cat)
  {
    assert Agrees(tx.lookup, tx.dict, cat);
    hide Agrees, InStep, Assign, Remembers, Catalog.Kept;
    AssignKeepsAgreement(tx, cat, column, value);
    AssignExtends(tx, column, value, cat.Kept(value));
  }

  lemma ColumnKeepsTx(tx: Tx, row: Row, cat: Catalog, c: Column, entry: LogEntry)
    requires InStep(tx.lookup, tx.dict, cat)
    ensures TxGrew(tx, EncodeColumn(tx, row, cat, c, entry).tx, cat)
  {
    hide InStep, Holds, Assign, Catalog.Kept, StoredText;
    AssignGrowsTx(tx, cat, c.name, StoredText(Raw(entry, c.name)));
  }

  lemma ColumnDecodes(tx: Tx, row: Row, cat: Catalog, c: Column, entry: LogEntry)
    requires RowDecodes(entry, row, cat, tx.lookup)
    ensures var e := EncodeColumn(tx, row, cat, c, entry);
            && Extends(tx.lookup, e.tx.lookup)
            && (e.outcome.Encoded? ==> RowDecodes(entry, e.outcome.row, cat, e.tx.lookup))
  {
    var text := StoredText(Raw(entry, c.name));
    AssignExtends(tx, c.name, text, cat.Kept(text));
    AssignLearns(tx, c.name, text, cat.Kept(text), DictRow(c.name, text, 0));
    hide Assign, Holds, Catalog.Kept, StoredText;
  }

  lemma ColumnSound(tx: Tx, row: Row, cat: Catalog, done: seq<Column>, c: Column, entry: LogEntry)
    requires InStep(tx.lookup, tx.dict, cat) && CellsFor(entry, row, cat, done, tx.dict)
    ensures var e := EncodeColumn(tx, row, cat, c, entry);
            e.outcome.Encoded? ==> CellsFor(entry, e.outcome.row, cat, done + [c], e.tx.dict)
  {
    var e := EncodeColumn(tx, row, cat, c, entry);
    hide Agrees, Persisted, Holds, CellFor;
    if e.outcome.Encoded? {
      ColumnKeepsTx(tx, row, cat, c, entry);
      NewCellSound(tx, row, cat, c, entry);
      hide EncodeColumn, InStep, Remembers;
      MoreDictionaryKeepsCells(entry, row, cat, done, tx.dict, e.tx.dict);
      forall d | d in done + [c]
        ensures d.name in e.outcome.row && CellFor(entry, d.name, e.outcome.row[d.name], cat, e.tx.dict)
      {
        assert d.name == c.name || d in done;
      }
      forall name | name in e.outcome.row ensures Named(done + [c], name) {
        if name != c.name {
          var d :| d in done && d.name == name;
          assert d in done + [c];
        } else {
          assert c in done + [c];
        }
      }
    }
  }

  /** The cell of the column just encoded. */
  lemma NewCellSound(tx: Tx, row: Row, cat: Catalog, c: Column, entry: LogEntry)
    requires InStep(tx.lookup, tx.dict, cat) && EncodeColumn(tx, row, cat, c, entry).outcome.Encoded?
    ensures var e, raw := EncodeColumn(tx, row, cat, c, entry), Raw(entry, c.name);
            && e.outcome.row.Keys == row.Keys + {c.name}
            && (forall name :: name in row && name != c.name ==> e.outcome.row[name] == row[name])
            && CellFor(entry, c.name, e.outcome.row[c.name], cat, e.tx.dict) && (c.notNull ==> raw != JNull)
  {
    var text := StoredText(Raw(entry, c.name));
    hide Assign, InStep, Catalog.Kept, StoredText;
    AssignedIsPersisted(tx, cat, c.name, text);
    forall name | name in row && name != c.name
      ensures EncodeColumn(tx, row, cat, c, entry).outcome.row[name] == row[name]
    {
    }
  }

  lemma AssignedIsPersisted(tx: Tx, cat: Catalog, column: string, value: string)
    requires InStep(tx.lookup, tx.dict, cat)
    ensures var a := Assign(tx, column, value, cat.Kept(value));
            a.id.Some? ==> DictRow(column, cat.Kept(value), a.id.value) in a.tx.dict
  {
    hide NextValueId, Catalog.Kept, Agrees;
    if value in Known(tx.lookup, column) {
      var r := DictRow(column, value, tx.lookup[column][value]);
      assert Persisted(tx.lookup, tx.dict, cat, r);
    }
  }

  /** Encoding a row keeps dictionary memory and table in step, and every cell decodes to the entry's value. */
  lemma {:induction false} EncodeRowSound(tx: Tx, cat: Catalog, cols: seq<Column>, entry: LogEntry)
    requires InStep(tx.lookup, tx.dict, cat)
    ensures var e := EncodeRow(tx, cat, cols, entry);
            && TxGrew(tx, e.tx, cat)
            && (e.outcome.Encoded? ==> CellsFor(entry, e.outcome.row, cat, cols, e.tx.dict))
  {
    if cols != [] {
      var k := |cols| - 1;
      var c, init := cols[k], cols[..k];
      EncodeRowSound(tx, cat, init, entry);
      var before := EncodeRow(tx, cat, init, entry);
      if before.outcome.Encoded? {
        ColumnSound(before.tx, before.outcome.row, cat, init, c, entry);
        ColumnKeepsTx(before.tx, before.outcome.row, cat, c, entry);
        assert cols == init + [c];
        hide InStep, CellsFor, EncodeColumn, Holds;
      }
    }
  }

  /** Memory only ever learns, numbering upwards, and the row it encodes decodes in it. */
  lemma {:induction false} EncodeRowDecodes(tx: Tx, cat: Catalog, cols: seq<Column>, entry: LogEntry)
    ensures var e := EncodeRow(tx, cat, cols, entry);
            && Extends(tx.lookup, e.tx.lookup)
            && (e.outcome.Encoded? ==> RowDecodes(entry, e.outcome.row, cat, e.tx.lookup))
  {
    if cols != [] {
      var k := |cols| - 1;
      EncodeRowDecodes(tx, cat, cols[..k], entry);
      var before := EncodeRow(tx, cat, cols[..k], entry);
      hide RowDecodes, Extends, EncodeColumn;
      if before.outcome.Encoded? {
        ColumnDecodes(before.tx, before.outcome.row, cat, cols[k], entry);
        ExtendsTwice(tx.lookup, before.tx.lookup, EncodeRow(tx, cat, cols, entry).tx.lookup);
      }
    }
  }

  lemma {:induction false} EntriesExtend(b: Batch, cat: Catalog, cols: seq<Column>, entries: seq<LogEntry>,
                                         faults: Faults)
    ensures Extends(b.tx.lookup, InsertEntries(b, cat, cols, entries, faults).tx.lookup)
  {
    if entries != [] {
      var k := |entries| - 1;
      EntriesExtend(b, cat, cols, entries[..k], faults);
      var before := InsertEntries(b, cat, cols, entries[..k], faults);
      EncodeRowDecodes(before.tx, cat, cols, entries[k]);
      hide Extends, EncodeRow, NextRowId;
      if !before.failed && |before.fates| != faults.throwsAt {
        ExtendsTwice(b.tx.lookup, before.tx.lookup, EncodeRow(before.tx, cat, cols, entries[k]).tx.lookup);
      }
    }
  }

  /** A row decodes on in a memory that learnt. */
  lemma LearningKeepsDecoding(entry: LogEntry, row: Row, cat: Catalog, lookup: Lookup, more: Lookup)
    requires RowDecodes(entry, row, cat, lookup) && Remembers(lookup, more)
    ensures RowDecodes(entry, row, cat, more)
  {
    hide Holds, StoredText;
  }

  predicate AssignedTo(fates: seq<Fate>, j: int, id: int) {
    0 <= j < |fates| && fates[j] == Inserted(id)
  }

  /** A transaction in progress on tables t, having taken in a prefix of the entries. */
  ghost predicate BatchSound(t: Tables, b: Batch, cat: Catalog, entries: seq<LogEntry>) {
    && InStep(b.tx.lookup, b.tx.dict, cat) && t.dict <= b.tx.dict
    && IdsSound(b.rows, b.sequence) && t.sequence <= b.sequence
    && KeepsRows(t.rows, b.rows) && RowsCome(t.rows, b.rows, b.fates) && FatesAscending(b.fates)
    && |b.fates| <= |entries| && FatesFit(t, b.rows, b.fates, cat, entries, b.tx)
  }

  predicate KeepsRows(before: map<int, Row>, rows: map<int, Row>) {
    forall id :: id in before ==> id in rows && rows[id] == before[id]
  }

  /** Every row was there before or has a fate. */
  ghost predicate RowsCome(before: map<int, Row>, rows: map<int, Row>, fates: seq<Fate>) {
    forall id :: id in rows ==> id in before || exists j :: AssignedTo(fates, j, id)
  }

  ghost predicate FatesAscending(fates: seq<Fate>) {
    forall i, j, x, y :: AssignedTo(fates, i, x) && AssignedTo(fates, j, y) && i < j ==> x < y
  }

  /** Every fate that assigns an id is a new row with the entry's values. */
  ghost predicate FatesFit(t: Tables, rows: map<int, Row>, fates: seq<Fate>, cat: Catalog, entries: seq<LogEntry>,
                           tx: Tx)
    requires |fates| <= |entries|
  {
    forall j, id :: AssignedTo(fates, j, id) ==>
      && id in rows && id !in t.rows && (cat.autoincrement ==> t.sequence < id)
      && RowIn(entries[j], rows[id], cat, tx)
  }

  /** The row holds the entry's values and decodes. */
  ghost predicate RowIn(entry: LogEntry, row: Row, cat: Catalog, tx: Tx) {
    RowFor(entry, row, cat, tx.dict) && RowDecodes(entry, row, cat, tx.lookup)
  }

  lemma RowStaysIn(entry: LogEntry, row: Row, cat: Catalog, tx: Tx, more: Tx)
    requires RowIn(entry, row, cat, tx) && tx.dict <= more.dict && Remembers(tx.lookup, more.lookup)
    ensures RowIn(entry, row, cat, more)
  {
    MoreDictionaryKeepsCells(entry, row, cat, cat.DataColumns(), tx.dict, more.dict);
    LearningKeepsDecoding(entry, row, cat, tx.lookup, more.lookup);
    hide CellsFor, RowDecodes;
  }

  lemma NextRowIdIsAbove(rows: map<int, Row>, sequence: nat, autoincrement: bool)
    requires IdsSound(rows, sequence)
    ensures var next := NextRowId(rows, sequence, autoincrement);
            next >= 1 && (autoincrement ==> sequence < next) && forall id :: id in rows ==> id < next
  {
    if !autoincrement && rows.Keys != {} {
      assert MaxOf(rows.Keys) in rows;
      forall id | id in rows ensures id <= MaxOf(rows.Keys) {
        assert id in rows.Keys;
      }
    }
  }

  lemma FateAppended(fates: seq<Fate>, f: Fate, j: int, id: int)
    ensures AssignedTo(fates + [f], j, id) <==> AssignedTo(fates, j, id) || (j == |fates| && f == Inserted(id))
  {
  }

  /** A fate that assigns no id: only the dictionary may have grown. */
  lemma BatchStepWithoutRow(t: Tables, b: Batch, after: Batch, cat: Catalog, entries: seq<LogEntry>)
    requires BatchSound(t, b, cat, entries) && TxGrew(b.tx, after.tx, cat)
    requires after.rows == b.rows && after.sequence == b.sequence && |after.fates| <= |entries|
    requires after.fates == b.fates || after.fates == b.fates + [Skipped] || after.fates == b.fates + [Rejected]
    ensures BatchSound(t, after, cat, entries)
  {
    forall j, id ensures AssignedTo(after.fates, j, id) <==> AssignedTo(b.fates, j, id) {
      FateAppended(b.fates, Skipped, j, id);
      FateAppended(b.fates, Rejected, j, id);
    }
    hide RowIn, Remembers, InStep;
    forall j, id | AssignedTo(b.fates, j, id) ensures RowIn(entries[j], b.rows[id], cat, after.tx) {
      RowStaysIn(entries[j], b.rows[id], cat, b.tx, after.tx);
    }
  }

  /** The next id is above all earlier fates. */
  lemma AscendingWithNext(t: Tables, rows: map<int, Row>, fates: seq<Fate>, cat: Catalog, entries: seq<LogEntry>,
                          tx: Tx, next: int)
    requires FatesAscending(fates) && forall id :: id in rows ==> id < next
    requires |fates| <= |entries| && FatesFit(t, rows, fates, cat, entries, tx)
    ensures FatesAscending(fates + [Inserted(next)])
  {
    hide RowIn;
    forall i, j, x, y | AssignedTo(fates + [Inserted(next)], i, x) && AssignedTo(fates + [Inserted(next)], j, y)
          && i < j
      ensures x < y
    {
      FateAppended(fates, Inserted(next), i, x);
      FateAppended(fates, Inserted(next), j, y);
      assert AssignedTo(fates, i, x);
    }
  }

  lemma FitsWithNext(t: Tables, rows: map<int, Row>, fates: seq<Fate>, cat: Catalog, entries: seq<LogEntry>,
                     tx: Tx, more: Tx, next: int, row: Row)
    requires |fates| < |entries| && FatesFit(t, rows, fates, cat, entries, tx)
    requires tx.dict <= more.dict && Remembers(tx.lookup, more.lookup)
    requires RowIn(entries[|fates|], row, cat, more) && next !in rows && KeepsRows(t.rows, rows)
    requires cat.autoincrement ==> t.sequence < next
    ensures FatesFit(t, rows[next := row], fates + [Inserted(next)], cat, entries, more)
  {
    hide RowIn, Remembers;
    forall j, id | AssignedTo(fates + [Inserted(next)], j, id)
      ensures id in rows[next := row] && id !in t.rows && (cat.autoincrement ==> t.sequence < id)
           && RowIn(entries[j], rows[next := row][id], cat, more)
    {
      FateAppended(fates, Inserted(next), j, id);
      if AssignedTo(fates, j, id) {
        RowStaysIn(entries[j], rows[id], cat, tx, more);
      }
    }
  }

  lemma RowsComeWithNext(before: map<int, Row>, rows: map<int, Row>, fates: seq<Fate>, next: int, row: Row)
    requires RowsCome(before, rows, fates)
    ensures RowsCome(before, rows[next := row], fates + [Inserted(next)])
  {
    forall id | id in rows[next := row] ensures id in before || exists j ::
          AssignedTo(fates + [Inserted(next)], j, id) {
      if id == next {
        assert AssignedTo(fates + [Inserted(next)], |fates|, id);
      } else if id !in before {
        var j :| AssignedTo(fates, j, id);
        assert AssignedTo(fates + [Inserted(next)], j, id);
      }
    }
  }

  /** A committed row: one new id above all others, holding the entry's values. */
  lemma BatchStepWithRow(t: Tables, b: Batch, after: Batch, cat: Catalog, entries: seq<LogEntry>, row: Row)
    requires BatchSound(t, b, cat, entries) && TxGrew(b.tx, after.tx, cat) && |b.fates| < |entries|
    requires RowIn(entries[|b.fates|], row, cat, after.tx)
    requires var id := NextRowId(b.rows, b.sequence, cat.autoincrement);
             && after.rows == b.rows[id := row] && after.fates == b.fates + [Inserted(id)]
             && after.sequence == if id > b.sequence then id else b.sequence
    ensures BatchSound(t, after, cat, entries)
  {
    hide NextRowId, RowIn, InStep, Remembers, FatesAscending, FatesFit, RowsCome;
    var next := NextRowId(b.rows, b.sequence, cat.autoincrement);
    NextRowIdIsAbove(b.rows, b.sequence, cat.autoincrement);
    AscendingWithNext(t, b.rows, b.fates, cat, entries, b.tx, next);
    FitsWithNext(t, b.rows, b.fates, cat, entries, b.tx, after.tx, next, row);
    RowsComeWithNext(t.rows, b.rows, b.fates, next, row);
  }

  lemma {:induction false} EntriesSound(t: Tables, lookup: Lookup, cat: Catalog, entries: seq<LogEntry>, k: nat,
                                        faults: Faults)
    requires k <= |entries| && InStep(lookup, t.dict, cat) && IdsSound(t.rows, t.sequence)
    ensures var b := InsertEntries(Begun(t, lookup, faults), cat, cat.DataColumns(), entries[..k], faults);
            && BatchSound(t, b, cat, entries)
            && |b.fates| <= k && (!b.failed ==> |b.fates| == k)
  {
    var cols := cat.DataColumns();
    if k > 0 {
      EntriesSound(t, lookup, cat, entries, k - 1, faults);
      assert entries[..k][..k - 1] == entries[..k - 1];
      var b := InsertEntries(Begun(t, lookup, faults), cat, cols, entries[..k - 1], faults);
      EntrySound(t, b, cat, entries, k - 1, faults);
      hide BatchSound, InsertEntry;
    } else {
      assert entries[..0] == [];
    }
  }

  lemma EntrySound(t: Tables, b: Batch, cat: Catalog, entries: seq<LogEntry>, k: nat, faults: Faults)
    requires k < |entries| && BatchSound(t, b, cat, entries) && |b.fates| <= k && (!b.failed ==> |b.fates| == k)
    ensures var after := InsertEntry(b, cat, cat.DataColumns(), entries[k], faults);
            && BatchSound(t, after, cat, entries)
            && |after.fates| <= k + 1 && (!after.failed ==> |after.fates| == k + 1)
  {
    var cols := cat.DataColumns();
    var after := InsertEntry(b, cat, cols, entries[k], faults);
    if !b.failed && |b.fates| != faults.throwsAt {
      EncodeRowSound(b.tx, cat, cols, entries[k]);
      EncodeRowDecodes(b.tx, cat, cols, entries[k]);
      var e := EncodeRow(b.tx, cat, cols, entries[k]);
      hide CellsFor, RowDecodes, Remembers, IdsSound, InStep, EncodeRow, FatesAscending, FatesFit, RowsCome, KeepsRows;
      if e.outcome.Encoded? && |b.fates| !in faults.rejects {
        BatchStepWithRow(t, b, after, cat, entries, e.outcome.row);
      } else {
        BatchStepWithoutRow(t, b, after, cat, entries);
      }
    }
  }

  // ── Which fate an entry gets, and which id the first row ───────────────────

  /** The entry has no value, or null, for a column that needs one. */
  predicate LacksRequired(entry: LogEntry, cols: seq<Column>) {
    exists c :: c in cols && c.notNull && Raw(entry, c.name) == JNull
  }

  /** A row encodes only if no required value is missing, and is given up as incomplete only if one is. */
  lemma {:induction false} OutcomeTells(tx: Tx, cat: Catalog, cols: seq<Column>, entry: LogEntry)
    ensures var outcome := EncodeRow(tx, cat, cols, entry).outcome;
            && (outcome.Encoded? ==> !LacksRequired(entry, cols))
            && (outcome.MissingRequired? ==> LacksRequired(entry, cols))
  {
    if cols != [] {
      var k := |cols| - 1;
      OutcomeTells(tx, cat, cols[..k], entry);
      assert cols == cols[..k] + [cols[k]];
      hide Assign;
    }
  }

  /** Skipped for a missing required value, Rejected by SQLite if the row encoded, otherwise inserted. */
  predicate EarnedFate(fate: Fate, entry: LogEntry, cols: seq<Column>, rejected: bool) {
    if LacksRequired(entry, cols) then fate == Skipped
    else if rejected then fate == Rejected
    else fate.Inserted?
  }

  lemma {:induction false} FatesAreEarned(begun: Batch, cat: Catalog, cols: seq<Column>, entries: seq<LogEntry>,
                                          faults: Faults)
    requires begun.fates == []
    ensures var b := InsertEntries(begun, cat, cols, entries, faults);
            && (!b.failed ==> |b.fates| == |entries|)
            && (!b.failed ==> forall j :: 0 <= j < |entries| ==>
                  EarnedFate(b.fates[j], entries[j], cols, j in faults.rejects))
  {
    if entries != [] {
      var k := |entries| - 1;
      FatesAreEarned(begun, cat, cols, entries[..k], faults);
      var before := InsertEntries(begun, cat, cols, entries[..k], faults);
      NextFateIsEarned(before, cat, cols, entries[k], faults);
      var b := InsertEntry(before, cat, cols, entries[k], faults);
      assert InsertEntries(begun, cat, cols, entries, faults) == b;
      hide InsertEntries, InsertEntry, EarnedFate;
      if !b.failed {
        OneMoreEarned(before.fates, b.fates, cols, entries, faults);
      }
    }
  }

  lemma OneMoreEarned(before: seq<Fate>, fates: seq<Fate>, cols: seq<Column>, entries: seq<LogEntry>, faults: Faults)
    requires entries != [] && |fates| == |entries| == |before| + 1 && fates[..|before|] == before
    requires forall j :: 0 <= j < |before| ==> EarnedFate(before[j], entries[..|before|][j], cols, j in faults.rejects)
    requires EarnedFate(fates[|before|], entries[|before|], cols, |before| in faults.rejects)
    ensures forall j :: 0 <= j < |entries| ==> EarnedFate(fates[j], entries[j], cols, j in faults.rejects)
  {
    hide EarnedFate;
    forall j | 0 <= j < |entries| ensures EarnedFate(fates[j], entries[j], cols, j in faults.rejects) {
      if j < |before| {
        assert fates[j] == before[j] && entries[..|before|][j] == entries[j];
      }
    }
  }

  lemma NextFateIsEarned(b: Batch, cat: Catalog, cols: seq<Column>, entry: LogEntry, faults: Faults)
    ensures var after := InsertEntry(b, cat, cols, entry, faults);
      && (b.failed ==> after.failed)
      && (!after.failed ==>
            && |after.fates| == |b.fates| + 1 && after.fates[..|b.fates|] == b.fates
            && EarnedFate(after.fates[|b.fates|], entry, cols, |b.fates| in faults.rejects))
  {
    OutcomeTells(b.tx, cat, cols, entry);
    hide EncodeRow, NextRowId, LacksRequired;
  }

  /** The id of the first entry that got one. */
  function FirstId(fates: seq<Fate>): Option<int> {
    if fates == [] then None
    else
      var before, last := FirstId(fates[..|fates| - 1]), fates[|fates| - 1];
      if before.Some? then before else if last.Inserted? then Some(last.id) else None
  }

  lemma {:induction false} FirstIdIsAssigned(fates: seq<Fate>)
    requires FirstId(fates).Some?
    ensures exists i :: AssignedTo(fates, i, FirstId(fates).value)
  {
    var k := |fates| - 1;
    if FirstId(fates[..k]).Some? {
      FirstIdIsAssigned(fates[..k]);
      var i :| AssignedTo(fates[..k], i, FirstId(fates).value);
      assert AssignedTo(fates, i, FirstId(fates).value);
    } else {
      assert AssignedTo(fates, k, FirstId(fates).value);
    }
  }

  lemma {:induction false} FirstIdIsLeast(fates: seq<Fate>, j: int, id: int)
    requires FatesAscending(fates) && AssignedTo(fates, j, id)
    ensures FirstId(fates).Some? && FirstId(fates).value <= id
  {
    var k := |fates| - 1;
    var init := fates[..k];
    if j < k {
      forall i, l, x, y | AssignedTo(init, i, x) && AssignedTo(init, l, y) && i < l ensures x < y {
        assert AssignedTo(fates, i, x) && AssignedTo(fates, l, y);
      }
      assert AssignedTo(init, j, id);
      FirstIdIsLeast(init, j, id);
    } else if FirstId(init).Some? {
      FirstIdIsAssigned(init);
      var i :| AssignedTo(init, i, FirstId(init).value);
      assert AssignedTo(fates, i, FirstId(init).value);
    }
  }

  /** The first row of a batch gets the next id of the table the batch began on; without one the table stays. */
  lemma {:induction false} FirstIdIsNext(begun: Batch, cat: Catalog, cols: seq<Column>, entries: seq<LogEntry>,
                                         faults: Faults)
    requires begun.fates == []
    ensures var b := InsertEntries(begun, cat, cols, entries, faults);
            match FirstId(b.fates) {
              case None => b.rows == begun.rows && b.sequence == begun.sequence
              case Some(id) => id == NextRowId(begun.rows, begun.sequence, cat.autoincrement)
            }
  {
    if entries != [] {
      var k := |entries| - 1;
      FirstIdIsNext(begun, cat, cols, entries[..k], faults);
      var before := InsertEntries(begun, cat, cols, entries[..k], faults);
      var b := InsertEntry(before, cat, cols, entries[k], faults);
      assert b.fates == before.fates || (|b.fates| == |before.fates| + 1 && b.fates[..|before.fates|] == before.fates);
      hide EncodeRow, NextRowId;
    }
  }

  lemma CountOneMore(fates: seq<Fate>, f: Fate)
    ensures CountInserted(fates + [f]) == CountInserted(fates) + if f.Inserted? then 1 else 0
  {
    assert (fates + [f])[..|fates|] == fates;
  }

  /** Every entry inserted is one more row. */
  lemma EntryCounts(b: Batch, cat: Catalog, cols: seq<Column>, entry: LogEntry, faults: Faults)
    requires IdsSound(b.rows, b.sequence)
    ensures var after := InsertEntry(b, cat, cols, entry, faults);
            && IdsSound(after.rows, after.sequence)
            && |after.rows| - |b.rows| == CountInserted(after.fates) - CountInserted(b.fates)
  {
    hide EncodeRow, NextRowId, CountInserted;
    var id := NextRowId(b.rows, b.sequence, cat.autoincrement);
    NextRowIdIsAbove(b.rows, b.sequence, cat.autoincrement);
    assert id !in b.rows;
    CountOneMore(b.fates, Inserted(id));
    CountOneMore(b.fates, Skipped);
    CountOneMore(b.fates, Rejected);
    var e := EncodeRow(b.tx, cat, cols, entry);
    if e.outcome.Encoded? {
      OneRowMore(b.rows, id, e.outcome.row);
    }
  }

  lemma OneRowMore(rows: map<int, Row>, id: int, row: Row)
    requires id !in rows
    ensures |rows[id := row]| == |rows| + 1
  {
    assert rows[id := row].Keys == rows.Keys + {id};
  }

  lemma {:induction false} RowsGrowByCount(begun: Batch, cat: Catalog, cols: seq<Column>, entries: seq<LogEntry>,
                                           faults: Faults)
    requires begun.fates == [] && IdsSound(begun.rows, begun.sequence)
    ensures var b := InsertEntries(begun, cat, cols, entries, faults);
            IdsSound(b.rows, b.sequence) && |b.rows| == |begun.rows| + CountInserted(b.fates)
  {
    if entries != [] {
      hide InsertEntry, IdsSound;
      var k := |entries| - 1;
      RowsGrowByCount(begun, cat, cols, entries[..k], faults);
      EntryCounts(InsertEntries(begun, cat, cols, entries[..k], faults), cat, cols, entries[k], faults);
    }
  }

  /** The count an Insert returns is that of the rows it added. */
  lemma CountIsRowsAdded(t: Tables, lookup: Lookup, cat: Catalog, entries: seq<LogEntry>, faults: Faults)
    requires IdsSound(t.rows, t.sequence) && InsertBatch(t, lookup, cat, entries, faults).Committed?
    ensures var r := InsertBatch(t, lookup, cat, entries, faults);
            |r.tables.rows| == |t.rows| + CountInserted(r.fates)
  {
    RowsGrowByCount(Begun(t, lookup, faults), cat, cat.DataColumns(), entries, faults);
    hide InsertEntries;
  }

  /** The contract of a whole Insert: a commit adds exactly the inserted entries, under ids that are new,
      above every present id, increasing in batch order and (with AUTOINCREMENT) never used before, each
      row decodable through memory and persisted in the committed dictionary table; exactly the entries that lack a
      required value are skipped, and the first row gets the next id of the table before; an abort changes no table
      and can only leave memory ahead of the dictionary table; memory forgets nothing. */
  ghost predicate InsertSound(t: Tables, lookup: Lookup, cat: Catalog, entries: seq<LogEntry>, r: InsertResult) {
    match r
    case NothingToDo => cat.DataColumns() == [] || entries == []
    case Committed(t', lookup', fates) =>
      && BatchSound(t, Batch(Tx(lookup', t'.dict, 0), t'.rows, t'.sequence, fates, false), cat, entries)
      && |fates| == |entries| && cat.DataColumns() != [] && Remembers(lookup, lookup')
      && (forall j :: 0 <= j < |fates| ==> (fates[j] == Skipped <==> LacksRequired(entries[j], cat.DataColumns())))
      && (match FirstId(fates)
          case None => t'.rows == t.rows
          case Some(id) => id == NextRowId(t.rows, t.sequence, cat.autoincrement))
    case Aborted(lookup') => Agrees(lookup', t.dict, cat) && Remembers(lookup, lookup')
  }

  lemma InsertIsSound(t: Tables, lookup: Lookup, cat: Catalog, entries: seq<LogEntry>, faults: Faults)
    requires InStep(lookup, t.dict, cat) && IdsSound(t.rows, t.sequence)
    ensures InsertSound(t, lookup, cat, entries, InsertBatch(t, lookup, cat, entries, faults))
    ensures match InsertBatch(t, lookup, cat, entries, faults)
            case Committed(_, _, fates) => |fates| == |entries| && forall j :: 0 <= j < |fates| ==>
              EarnedFate(fates[j], entries[j], cat.DataColumns(), j in faults.rejects)
            case _ => true
  {
    var cols := cat.DataColumns();
    EntriesSound(t, lookup, cat, entries, |entries|, faults);
    FatesAreEarned(Begun(t, lookup, faults), cat, cols, entries, faults);
    FirstIdIsNext(Begun(t, lookup, faults), cat, cols, entries, faults);
    EntriesExtend(Begun(t, lookup, faults), cat, cols, entries, faults);
    assert entries[..|entries|] == entries;
    hide InsertEntries, BatchSound, LacksRequired, NextRowId, FirstId, Agrees, Holds;
    var r := InsertBatch(t, lookup, cat, entries, faults);
    if r.Aborted? && !faults.beginFails {
      var b := InsertEntries(Begun(t, lookup, faults), cat, cols, entries, faults);
      AbortLeavesAgreement(t, lookup, b, cat, entries);
    }
  }

  lemma AbortLeavesAgreement(t: Tables, lookup: Lookup, b: Batch, cat: Catalog, entries: seq<LogEntry>)
    requires Agrees(lookup, t.dict, cat) && BatchSound(t, b, cat, entries) && Remembers(lookup, b.tx.lookup)
    ensures Agrees(b.tx.lookup, t.dict, cat)
  {
    hide Holds, Covered, Rising, Settled, Injective;
    AheadStillAgrees(lookup, b.tx.lookup, t.dict, cat);
  }

  /** An id that decodes is that of one text only. */
  lemma StoredTextDecodes(entry: LogEntry, row: Row, cat: Catalog, lookup: Lookup, name: string)
    requires RowDecodes(entry, row, cat, lookup) && Injective(lookup)
    requires name in row && name in cat.compressed && Raw(entry, name) != JNull
    ensures row[name].Int?
    ensures forall v :: Holds(lookup, DictRow(name, v, row[name].n)) <==> v == StoredText(Raw(entry, name))
  {
    var stored := DictRow(name, StoredText(Raw(entry, name)), row[name].n);
    assert Holds(lookup, stored);
  }
}
