/** The writer connection: batch insertion inside one transaction, with compression through the dictionary. */
module Writer {
  import opened Results
  import opened IdSets
  import opened LogTable
  import opened Dictionary

  datatype RowOutcome = Encoded(row: Row) | MissingRequired | Failed

  datatype Encoding = Encoding(tx: Tx, outcome: RowOutcome)

  function Raw(entry: LogEntry, column: string): Json {
    if column in entry then entry[column] else JNull
  }

  ghost function EncodeColumn(tx: Tx, row: Row, cat: Catalog, c: Column, entry: LogEntry): Encoding {
    var raw := Raw(entry, c.name);
    if c.notNull && raw == JNull then Encoding(tx, MissingRequired)
    else if c.name in cat.compressed && raw != JNull then
      var a := Assign(tx, c.name, StoredText(raw), cat.Kept(StoredText(raw)));
      if a.id.None? then Encoding(a.tx, Failed) else Encoding(a.tx, Encoded(row[c.name := Int(a.id.value)]))
    else Encoding(tx, Encoded(row[c.name := Bound(raw)]))
  }

  /** Columns are encoded in order; a missing required value or a failed dictionary insert ends the row. */
  ghost function EncodeRow(tx: Tx, cat: Catalog, cols: seq<Column>, entry: LogEntry): Encoding {
    if cols == [] then Encoding(tx, Encoded(map[]))
    else
      var before := EncodeRow(tx, cat, cols[..|cols| - 1], entry);
      if before.outcome.Encoded? then EncodeColumn(before.tx, before.outcome.row, cat, cols[|cols| - 1], entry)
      else before
  }

  /** What became of one entry of a batch. */
  datatype Fate = Inserted(id: int) | Skipped | Rejected

  /** What SQLite does beyond our control: which rows violate a constraint, how many dictionary inserts
      succeed, whether the row at throwsAt raises, and whether BEGIN and COMMIT fail. */
  datatype Faults = Faults(beginFails: bool, rejects: set<nat>, persistBudget: nat, throwsAt: nat, commitFails: bool)

  /** A transaction in progress. */
  datatype Batch = Batch(tx: Tx, rows: map<int, Row>, sequence: nat, fates: seq<Fate>, failed: bool)

  /** AUTOINCREMENT never reuses an id; a plain integer key restarts after the greatest id still present. */
  ghost function NextRowId(rows: map<int, Row>, sequence: nat, autoincrement: bool): int {
    if autoincrement then sequence + 1
    else if rows.Keys == {} then 1
    else MaxOf(rows.Keys) + 1
  }

  ghost function InsertEntry(b: Batch, cat: Catalog, cols: seq<Column>, entry: LogEntry, faults: Faults): Batch {
    if b.failed then b
    else if |b.fates| == faults.throwsAt then b.(failed := true)
    else
      var e := EncodeRow(b.tx, cat, cols, entry);
      match e.outcome
      case MissingRequired => b.(tx := e.tx, fates := b.fates + [Skipped])
      case Failed => b.(tx := e.tx, failed := true)
      case Encoded(row) =>
        if |b.fates| in faults.rejects then b.(tx := e.tx, fates := b.fates + [Rejected])
        else
          var id := NextRowId(b.rows, b.sequence, cat.autoincrement);
          b.(tx := e.tx, rows := b.rows[id := row],
             sequence := if id > b.sequence then id else b.sequence, fates := b.fates + [Inserted(id)])
  }

  ghost function InsertEntries(b: Batch, cat: Catalog, cols: seq<Column>, entries: seq<LogEntry>,
                               faults: Faults): Batch {
    if entries == [] then b
    else InsertEntry(InsertEntries(b, cat, cols, entries[..|entries| - 1], faults), cat, cols,
          entries[|entries| - 1], faults)
  }

  datatype InsertResult =
    | NothingToDo                                                    // no entries, or no column to fill
    | Committed(tables: Tables, lookup: Lookup, fates: seq<Fate>)
    | Aborted(lookup: Lookup)                                        // rolled back; memory keeps what it learnt

  ghost function Begun(t: Tables, lookup: Lookup, faults: Faults): Batch {
    Batch(Tx(lookup, t.dict, faults.persistBudget), t.rows, t.sequence, [], false)
  }

  ghost function InsertBatch(t: Tables, lookup: Lookup, cat: Catalog, entries: seq<LogEntry>,
                             faults: Faults): InsertResult {
    var cols := cat.DataColumns();
    if cols == [] || entries == [] then NothingToDo
    else if faults.beginFails then Aborted(lookup)
    else
      var b := InsertEntries(Begun(t, lookup, faults), cat, cols, entries, faults);
      if b.failed || faults.commitFails then Aborted(b.tx.lookup)
      else Committed(Tables(b.rows, b.sequence, b.tx.dict), b.tx.lookup, b.fates)
  }

  function CountInserted(fates: seq<Fate>): nat {
    if fates == [] then 0
    else CountInserted(fates[..|fates| - 1]) + (if fates[|fates| - 1].Inserted? then 1 else 0)
  }

  // ── The class ──────────────────────────────────────────────────────────────

  class WriterDatabase {
    const catalog: Catalog
    const dictionary: ColumnDictionary
    var tables: Tables

    constructor (catalog: Catalog, tables: Tables)
      ensures this.catalog == catalog && this.tables == tables
      ensures fresh(dictionary) && dictionary.lookup == Load(tables.dict)
    {
      this.catalog := catalog;
      this.tables := tables;
      dictionary := new ColumnDictionary(Load(tables.dict));
    }

    method FillRow(cols: seq<Column>, entry: LogEntry, dict: seq<DictRow>, budget: nat)
      returns (outcome: RowOutcome, dict': seq<DictRow>, budget': nat)
      modifies dictionary
      ensures EncodeRow(Tx(old(dictionary.lookup), dict, budget), catalog, cols, entry)
           == Encoding(Tx(dictionary.lookup, dict', budget'), outcome)
    {
      var row: Row := map[];
      dict', budget' := dict, budget;
      ghost var start := Tx(dictionary.lookup, dict, budget);
      var i := 0;
      while i < |cols|
        invariant 0 <= i <= |cols|
        invariant EncodeRow(start, catalog, cols[..i], entry)
               == Encoding(Tx(dictionary.lookup, dict', budget'), Encoded(row))
      {
        var c := cols[i];
        assert cols[..i + 1][..i] == cols[..i];
        EncodingStops(start, catalog, cols, entry, i + 1);
        i := i + 1;
        var raw := Raw(entry, c.name);
        if c.notNull && raw == JNull {
          return MissingRequired, dict', budget';
        }
        if c.name in catalog.compressed && raw != JNull {
          var id;
          var kept := catalog.Kept(StoredText(raw));
          id, dict', budget' := dictionary.GetOrCreate(c.name, StoredText(raw), kept, dict', budget');
          if id.None? {
            return Failed, dict', budget';
          }
          row := row[c.name := Int(id.value)];
        } else {
          row := row[c.name := Bound(raw)];
        }
      }
      assert cols[..i] == cols;
      outcome := Encoded(row);
    }

    method AssignRowId(rows: map<int, Row>, sequence: nat) returns (id: int)
      ensures id == NextRowId(rows, sequence, catalog.autoincrement)
    {
      if catalog.autoincrement {
        return sequence + 1;
      }
      if rows.Keys == {} {
        return 1;
      }
      var top := GreatestOf(rows.Keys);
      id := top + 1;
    }

    /** One entry of the batch: the columns, then the row. Not ok if the batch has to be rolled back. */
    method InsertOne(cols: seq<Column>, entry: LogEntry, faults: Faults, fates: seq<Fate>, budget: nat)
      returns (ok: bool, fates': seq<Fate>, budget': nat)
      modifies this, dictionary
      ensures InsertEntry(Batch(Tx(old(dictionary.lookup), old(tables.dict), budget), old(tables.rows),
            old(tables.sequence), fates, false),
                          catalog, cols, entry, faults)
           == Batch(Tx(dictionary.lookup, tables.dict, budget'), tables.rows, tables.sequence, fates', !ok)
    {
      hide EncodeRow, NextRowId;
      ok, fates', budget' := true, fates, budget;
      if |fates| == faults.throwsAt {
        return false, fates, budget;
      }
      var outcome, dict;
      outcome, dict, budget' := FillRow(cols, entry, tables.dict, budget);
      tables := tables.(dict := dict);
      if outcome.Failed? {
        return false, fates, budget';
      }
      if outcome.MissingRequired? {
        fates' := fates + [Skipped];
        return;
      }
      if |fates| in faults.rejects {
        fates' := fates + [Rejected];
        return;
      }
      var id := AssignRowId(tables.rows, tables.sequence);
      tables := tables.(rows := tables.rows[id := outcome.row],
                        sequence := if id > tables.sequence then id else tables.sequence);
      fates' := fates + [Inserted(id)];
    }

    method Insert(entries: seq<LogEntry>, faults: Faults) returns (count: Result<nat>, fates: seq<Fate>)
      modifies this, dictionary
      ensures match InsertBatch(old(tables), old(dictionary.lookup), catalog, entries, faults)
              case NothingToDo =>
                count == Ok(0) && fates == [] && tables == old(tables) && dictionary.lookup == old(dictionary.lookup)
              case Committed(t, lookup, f) =>
                count == Ok(CountInserted(f)) && fates == f && tables == t && dictionary.lookup == lookup
              case Aborted(lookup) => count.Error? && tables == old(tables) && dictionary.lookup == lookup
    {
      var cols := catalog.DataColumns();
      fates := [];
      if cols == [] || entries == [] {
        return Ok(0), fates;
      }
      if faults.beginFails {
        return Error("BEGIN"), fates;
      }
      var saved := tables;
      var budget := faults.persistBudget;
      var inserted := 0;
      ghost var begun := Begun(tables, dictionary.lookup, faults);
      var k := 0;
      hide InsertEntry, InsertEntries;
      NoEntriesYet(begun, catalog, cols, entries, faults);
      while k < |entries|
        invariant 0 <= k <= |entries|
        invariant InsertEntries(begun, catalog, cols, entries[..k], faults)
               == Batch(Tx(dictionary.lookup, tables.dict, budget), tables.rows, tables.sequence, fates, false)
        invariant inserted == CountInserted(fates)
      {
        EntriesStep(begun, catalog, cols, entries, faults, k);
        FailureStays(begun, catalog, cols, entries, faults, k + 1);
        OneMoreFate(InsertEntries(begun, catalog, cols, entries[..k], faults), catalog, cols, entries[k], faults);
        var ok;
        ok, fates, budget := InsertOne(cols, entries[k], faults, fates, budget);
        k := k + 1;
        if !ok {
          tables := saved;
          return Error("insert"), [];
        }
        if fates[|fates| - 1].Inserted? {
          inserted := inserted + 1;
        }
      }
      assert entries[..k] == entries;
      if faults.commitFails {
        tables := saved;
        return Error("COMMIT"), [];
      }
      count := Ok(inserted);
    }
  }

  method GreatestOf(s: set<int>) returns (top: int)
    requires s != {}
    ensures top == MaxOf(s)
  {
    var m :| m in s && forall y :: y in s ==> y <= m by { MaxExists(s); }
    top := m;
  }

  lemma NoEntriesYet(b: Batch, cat: Catalog, cols: seq<Column>, entries: seq<LogEntry>, faults: Faults)
    ensures InsertEntries(b, cat, cols, entries[..0], faults) == b
  {
  }

  lemma EntriesStep(b: Batch, cat: Catalog, cols: seq<Column>, entries: seq<LogEntry>, faults: Faults, k: nat)
    requires k < |entries|
    ensures InsertEntries(b, cat, cols, entries[..k + 1], faults)
         == InsertEntry(InsertEntries(b, cat, cols, entries[..k], faults), cat, cols, entries[k], faults)
  {
    hide InsertEntry;
    assert entries[..k + 1][..k] == entries[..k];
  }

  /** An entry that does not fail the batch gets one fate. */
  lemma OneMoreFate(b: Batch, cat: Catalog, cols: seq<Column>, entry: LogEntry, faults: Faults)
    ensures var after := InsertEntry(b, cat, cols, entry, faults);
      !after.failed ==> |after.fates| == |b.fates| + 1 && after.fates[..|b.fates|] == b.fates
  {
    hide EncodeRow, NextRowId;
  }

  /** A row that stopped early stays as it is. */
  lemma {:induction false} EncodingStops(tx: Tx, cat: Catalog, cols: seq<Column>, entry: LogEntry, k: nat)
    requires k <= |cols|
    ensures !EncodeRow(tx, cat, cols[..k], entry).outcome.Encoded?
        ==> EncodeRow(tx, cat, cols, entry) == EncodeRow(tx, cat, cols[..k], entry)
    decreases |cols|
  {
    if k == |cols| {
      assert cols[..k] == cols;
    } else {
      var init := cols[..|cols| - 1];
      EncodingStops(tx, cat, init, entry, k);
      assert init[..k] == cols[..k];
    }
  }

  /** A batch that failed stays as it is. */
  lemma {:induction false} FailureStays(b: Batch, cat: Catalog, cols: seq<Column>, entries: seq<LogEntry>,
                                        faults: Faults, k: nat)
    requires k <= |entries|
    ensures InsertEntries(b, cat, cols, entries[..k], faults).failed
        ==> InsertEntries(b, cat, cols, entries, faults) == InsertEntries(b, cat, cols, entries[..k], faults)
    decreases |entries|
  {
    if k == |entries| {
      assert entries[..k] == entries;
    } else {
      var init := entries[..|entries| - 1];
      FailureStays(b, cat, cols, init, faults, k);
      assert init[..k] == entries[..k];
    }
  }
}
