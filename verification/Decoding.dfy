/** The texts of compressed columns through commits, rollbacks, vacuums and restarts. */
module Decoding {
  import opened IdSets
  import opened LogTable
  import opened Backlogs
  import opened Dictionary
  import W = Writer
  import opened Storage
  import opened Queries
  import opened LiveTail
  import opened Service
  import opened Accounting
  import opened Runs

  /** Every id in a compressed column of every row is that of the text its entry was given with, in the memory the
      readers use. */
  ghost predicate AllDecode(s: State, cat: Catalog) {
    forall id, i :: RowOwned(s, cat, id, i) ==> RowDecodes(s.arrivals[i], s.tables.rows[id], cat, s.lookup)
  }

  /** Every text of the row survives a restart under its id. */
  ghost predicate RowSurvives(entry: LogEntry, row: Row, cat: Catalog, lookup: Lookup, dict: seq<DictRow>) {
    forall name :: name in row && name in cat.compressed && W.Raw(entry, name) != JNull ==>
      row[name].Int? && Survives(lookup, dict, cat, DictRow(name, StoredText(W.Raw(entry, name)), row[name].n))
  }

  /** The texts of all present rows do. */
  ghost predicate TextsSurvive(s: State, cat: Catalog) {
    forall id, i :: RowOwned(s, cat, id, i) ==>
      RowSurvives(s.arrivals[i], s.tables.rows[id], cat, s.lookup, s.tables.dict)
  }

  // ── Restarts ───────────────────────────────────────────────────────────────

  lemma RowSurvivesExactlyWhen(entry: LogEntry, row: Row, cat: Catalog, lookup: Lookup, dict: seq<DictRow>)
    requires RowFor(entry, row, cat, dict) && Agrees(lookup, dict, cat)
    ensures RowDecodes(entry, row, cat, Load(dict)) <==> RowSurvives(entry, row, cat, lookup, dict)
  {
    hide Holds, Load, Survives, Agrees, StoredText, Catalog.Kept;
    forall name | name in row && name in cat.compressed && W.Raw(entry, name) != JNull
      ensures row[name].Int?
      ensures var r := DictRow(name, StoredText(W.Raw(entry, name)), row[name].n);
              Holds(Load(dict), r) <==> Survives(lookup, dict, cat, r)
    {
      var c :| c in cat.DataColumns() && c.name == name;
      assert CellFor(entry, name, row[name], cat, dict);
      TextIsReloadedExactlyWhen(lookup, dict, cat, DictRow(name, StoredText(W.Raw(entry, name)), row[name].n));
    }
  }

  lemma RestartKeepsOwners(s: State, c: Config, id: int, i: int)
    requires PipelineSound(s, c) && c.backlogMax >= 1
    ensures RowOwned(Restarted(s), c.catalog, id, i) <==> RowOwned(s, c.catalog, id, i)
  {
    RestartKeepsPipeline(s, c);
    hide PipelineSound, RowFor, Mark, Load, InFlight;
  }

  /** After a restart every row decodes if and only if all its texts survive. */
  lemma RestartDecodesExactlyWhen(s: State, c: Config)
    requires Sound(s, c) && c.backlogMax >= 1
    ensures AllDecode(Restarted(s), c.catalog) <==> TextsSurvive(s, c.catalog)
  {
    forall id, i
      ensures RowOwned(Restarted(s), c.catalog, id, i) <==> RowOwned(s, c.catalog, id, i)
      ensures RowOwned(s, c.catalog, id, i) ==>
        (RowDecodes(s.arrivals[i], s.tables.rows[id], c.catalog, Load(s.tables.dict)) <==>
           RowSurvives(s.arrivals[i], s.tables.rows[id], c.catalog, s.lookup, s.tables.dict))
    {
      RestartKeepsOwners(s, c, id, i);
      if RowOwned(s, c.catalog, id, i) {
        RowSurvivesExactlyWhen(s.arrivals[i], s.tables.rows[id], c.catalog, s.lookup, s.tables.dict);
      }
    }
    hide Sound, RowDecodes, RowSurvives, Load, Mark;
  }

  // ── Every other step ───────────────────────────────────────────────────────

  /** Steps that store nothing and forget nothing; rows may go. */
  lemma DecodingFrame(s: State, after: State, cat: Catalog)
    requires StorageSound(s, cat) && AllDecode(s, cat)
    requires after.tables.dict == s.tables.dict && Remembers(s.lookup, after.lookup)
    requires forall id :: id in after.tables.rows ==> id in s.tables.rows && after.tables.rows[id] == s.tables.rows[id]
    requires SameStored(s.status, after.status) && s.arrivals <= after.arrivals
    ensures AllDecode(after, cat)
  {
    forall id, i | RowOwned(after, cat, id, i)
      ensures RowDecodes(after.arrivals[i], after.tables.rows[id], cat, after.lookup)
    {
      var j :| RowOwned(s, cat, id, j);
      assert RowOwned(after, cat, id, j);
      OneOwner(after, cat, id, i, j);
      LearningKeepsDecoding(s.arrivals[j], s.tables.rows[id], cat, s.lookup, after.lookup);
    }
  }

  /** A commit keeps the old rows, and its new ones decode. */
  lemma CommitKeepsDecoding(s: State, after: State, fates: seq<W.Fate>, cat: Catalog)
    requires StorageSound(s, cat) && AllDecode(s, cat) && Commits(s, after, fates, cat)
    ensures AllDecode(after, cat)
  {
    assert Remembers(s.lookup, after.lookup);
    hide Remembers, RowDecodes;
    forall id, i | RowOwned(after, cat, id, i)
      ensures RowDecodes(after.arrivals[i], after.tables.rows[id], cat, after.lookup)
    {
      var j := CommitKeepsOwner(s, after, fates, cat, id);
      OneOwner(after, cat, id, i, j);
      hide RowFor, StorageSound, InsertSound;
      if id in s.tables.rows {
        LearningKeepsDecoding(s.arrivals[j], s.tables.rows[id], cat, s.lookup, after.lookup);
      }
    }
  }

  lemma HeldKeepsStored(s: State, mark: Status, c: Config)
    requires PipelineSound(s, c) && s.flush.Holding? && !InFlightStatus(mark) && !mark.Stored?
    ensures SameStored(s.status, Mark(s.status, s.flush.batch, Repeat(mark, |s.flush.batch|)))
  {
    var batch := s.flush.batch;
    HeldMarks(s.status, batch, s.queue.items, Repeat(mark, |batch|));
    MarkKeepsStored(s.status, batch, Repeat(mark, |batch|));
  }

  lemma InsertKeepsDecoding(s: State, faults: W.Faults, maxIdFails: bool, c: Config)
    requires Sound(s, c) && s.flush.Holding? && AllDecode(s, c.catalog)
    ensures AllDecode(RunInsert(s, faults, maxIdFails, c), c.catalog)
  {
    hide W.InsertBatch, Mark, EntriesOf, MaxLogId, PlacesSound, AllDecode, SameStored, TailSound, Agrees;
    var entries := EntriesOf(s.arrivals, s.flush.batch);
    var r := W.InsertBatch(s.tables, s.lookup, c.catalog, entries, faults);
    var after := RunInsert(s, faults, maxIdFails, c);
    InsertIsSound(s.tables, s.lookup, c.catalog, entries, faults);
    HeldKeepsStored(s, NoColumns, c);
    HeldKeepsStored(s, LostInBatch, c);
    match r
    case NothingToDo => DecodingFrame(s, after, c.catalog);
    case Committed(t, lookup, fates) => CommitKeepsDecoding(s, after, fates, c.catalog);
    case Aborted(lookup) => DecodingFrame(s, after, c.catalog);
  }

  /** No step but a restart makes a row undecodable. */
  lemma StepKeepsDecoding(s: State, e: Event, c: Config)
    requires Sound(s, c) && c.backlogMax >= 1 && AllDecode(s, c.catalog) && e != Restart
    ensures AllDecode(Step(s, e, c), c.catalog)
  {
    hide AllDecode, PlacesSound, Mark, Repeat, RunInsert, SessionStep, TailSound, Agrees;
    if e.AddEntry? {
      AddKeepsPipeline(s, e.entry, c);
      DecodingFrame(s, Step(s, e, c), c.catalog);
    } else if e.Drain? {
      if s.flush == Polling {
        DrainKeepsPipeline(s, c);
        hide PipelineSound;
        DecodingFrame(s, Step(s, e, c), c.catalog);
      }
    } else if e.InsertJob? {
      if s.flush.Holding? {
        InsertKeepsDecoding(s, e.faults, e.maxIdFails, c);
      }
    } else {
      hide Holds, IdsSound;
      DecodingFrame(s, Step(s, e, c), c.catalog);
    }
  }

  // ── Runs ───────────────────────────────────────────────────────────────────

  /** At every moment of the run every row decodes. */
  ghost predicate AlwaysDecodes(events: seq<Event>, c: Config)
    requires c.backlogMax >= 1
  {
    forall k :: 0 <= k <= |events| ==> AllDecode(Run(events[..k], c), c.catalog)
  }

  /** At every restart of the run the texts of the rows then present survive. */
  ghost predicate RestartsKeepTexts(events: seq<Event>, c: Config)
    requires c.backlogMax >= 1
  {
    forall k :: 0 <= k < |events| && events[k] == Restart ==> TextsSurvive(Run(events[..k], c), c.catalog)
  }

  lemma RunStep(events: seq<Event>, c: Config, k: nat)
    requires c.backlogMax >= 1 && k < |events|
    ensures Run(events[..k + 1], c) == Step(Run(events[..k], c), events[k], c)
  {
    assert events[..k + 1][..k] == events[..k];
    hide Step;
  }

  lemma StartDecodes(c: Config)
    ensures AllDecode(Start(c), c.catalog)
  {
  }

  lemma {:induction false} DecodesUpTo(events: seq<Event>, c: Config, k: nat)
    requires c.backlogMax >= 1 && k <= |events| && RestartsKeepTexts(events, c)
    ensures AllDecode(Run(events[..k], c), c.catalog)
  {
    hide Run, Step, AllDecode, TextsSurvive, Sound, Start, Restarted;
    if k == 0 {
      assert events[..0] == [];
      RunOfNone(c);
      StartDecodes(c);
    } else {
      DecodesUpTo(events, c, k - 1);
      var s := Run(events[..k - 1], c);
      EveryRunIsSound(events[..k - 1], c);
      RunStep(events, c, k - 1);
      if events[k - 1] == Restart {
        RestartStep(s, c);
        RestartDecodesExactlyWhen(s, c);
      } else {
        StepKeepsDecoding(s, events[k - 1], c);
      }
    }
  }

  lemma KeptAtRestart(events: seq<Event>, c: Config, k: nat)
    requires c.backlogMax >= 1 && AlwaysDecodes(events, c) && k < |events| && events[k] == Restart
    ensures TextsSurvive(Run(events[..k], c), c.catalog)
  {
    hide Run, Step, AllDecode, TextsSurvive, Sound, Restarted;
    assert AllDecode(Run(events[..k + 1], c), c.catalog);
    EveryRunIsSound(events[..k], c);
    RunStep(events, c, k);
    RestartStep(Run(events[..k], c), c);
    RestartDecodesExactlyWhen(Run(events[..k], c), c);
  }

  /** In a run every row decodes at every moment if and only if at every restart the texts of the rows then present
      survive: the dictionary table gives each back whole, and no other persisted text as it under a greater id. */
  lemma AlwaysDecodesExactlyWhen(events: seq<Event>, c: Config)
    requires c.backlogMax >= 1
    ensures AlwaysDecodes(events, c) <==> RestartsKeepTexts(events, c)
  {
    hide Run, AllDecode, TextsSurvive;
    if AlwaysDecodes(events, c) {
      forall k | 0 <= k < |events| && events[k] == Restart ensures TextsSurvive(Run(events[..k], c), c.catalog) {
        hide AlwaysDecodes;
        KeptAtRestart(events, c, k);
      }
    }
    if RestartsKeepTexts(events, c) {
      forall k | 0 <= k <= |events| ensures AllDecode(Run(events[..k], c), c.catalog) {
        hide RestartsKeepTexts;
        DecodesUpTo(events, c, k);
      }
    }
  }

  /** A cell of a compressed column decodes to the text of the value and to no other; NULL stands for null. */
  ghost predicate DecodesTo(cell: Cell, raw: Json, column: string, lookup: Lookup) {
    if raw == JNull then cell == Null
    else cell.Int? && forall v :: Holds(lookup, DictRow(column, v, cell.n)) <==> v == StoredText(raw)
  }

  lemma CellDecodes(entry: LogEntry, row: Row, cat: Catalog, dict: seq<DictRow>, lookup: Lookup, column: Column)
    requires RowFor(entry, row, cat, dict) && RowDecodes(entry, row, cat, lookup) && Injective(lookup)
    requires column in cat.DataColumns() && column.name in cat.compressed
    ensures column.name in row && DecodesTo(row[column.name], W.Raw(entry, column.name), column.name, lookup)
  {
    hide Injective;
    assert CellFor(entry, column.name, row[column.name], cat, dict);
    if W.Raw(entry, column.name) != JNull {
      StoredTextDecodes(entry, row, cat, lookup, column.name);
    }
  }

  /** Across commits, rollbacks, vacuums and restarts that keep the texts, every integer in a compressed column of a
      row decodes, through the dictionary memory the readers use, to exactly the text its entry was given with. */
  lemma StoredIdsDecodeInRun(events: seq<Event>, c: Config, id: int, column: Column)
    requires c.backlogMax >= 1 && RestartsKeepTexts(events, c)
    requires id in Run(events, c).tables.rows
    requires column in c.catalog.DataColumns() && column.name in c.catalog.compressed
    ensures var s := Run(events, c); exists i ::
              RowOwned(s, c.catalog, id, i)
              && DecodesTo(s.tables.rows[id][column.name], W.Raw(s.arrivals[i], column.name), column.name, s.lookup)
  {
    EveryRunIsSound(events, c);
    DecodesUpTo(events, c, |events|);
    assert events[..|events|] == events;
    var s := Run(events, c);
    hide Run, RestartsKeepTexts, PipelineSound, TailSound, LastUnder, RowDecodes, DecodesTo, RowFor;
    var i :| RowOwned(s, c.catalog, id, i);
    CellDecodes(s.arrivals[i], s.tables.rows[id], c.catalog, s.tables.dict, s.lookup, column);
  }
}
